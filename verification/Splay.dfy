/** The top-down splay trees of src/tree.h. */
module SplayTree {
  import opened TreeOrder

  datatype Tree<K> = Nil | Fork(left: Tree<K>, elem: Elem<K>, right: Tree<K>)

  ghost function InOrder<K>(t: Tree<K>): seq<Elem<K>> {
    if t.Nil? then [] else InOrder(t.left) + [t.elem] + InOrder(t.right)
  }

  ghost function Nodes<K>(t: Tree<K>): set<Elem<K>> {
    if t.Nil? then {} else Nodes(t.left) + {t.elem} + Nodes(t.right)
  }

  ghost predicate Distinct<K>(t: Tree<K>) {
    t.Nil? ||
    (Distinct(t.left) && Distinct(t.right) && t.elem !in Nodes(t.left) && t.elem !in Nodes(t.right)
     && Nodes(t.left) !! Nodes(t.right))
  }

  ghost function Size<K>(t: Tree<K>): nat {
    if t.Nil? then 0 else Size(t.left) + 1 + Size(t.right)
  }

  /** One of the two trees being put together: the nodes linked so far, the last one first,
      each with the subtree on its far side. The hole is at the near side of the last one. */
  datatype Spine<K> = End | Link(up: Spine<K>, elem: Elem<K>, side: Tree<K>)

  ghost function SpineNodes<K>(c: Spine<K>): set<Elem<K>> {
    if c.End? then {} else SpineNodes(c.up) + {c.elem} + Nodes(c.side)
  }

  ghost predicate SpineDistinct<K>(c: Spine<K>) {
    c.End? ||
    (SpineDistinct(c.up) && Distinct(c.side) && c.elem !in SpineNodes(c.up) && c.elem !in Nodes(c.side)
     && SpineNodes(c.up) !! Nodes(c.side))
  }

  /** The node whose link is the hole: the last one linked, or the header on the stack. */
  ghost function Tail<K>(c: Spine<K>, header: Elem<K>): Elem<K> {
    if c.End? then header else c.elem
  }

  // ---------- memory ----------

  datatype Cell<K> = Cell(left: Elem?<K>, right: Elem?<K>)
  type Mem<K> = map<Elem<K>, Cell<K>>

  ghost function Snap<K>(nodes: set<Elem<K>>): (m: Mem<K>)
    reads nodes
    ensures m.Keys == nodes
    ensures forall n <- nodes :: m[n] == Cell(n.left, n.right)
  {
    map n | n in nodes :: Cell(n.left, n.right)
  }

  ghost function Ptr<K>(t: Tree<K>): Elem?<K> {
    if t.Nil? then null else t.elem
  }

  ghost predicate Rep<K>(m: Mem<K>, t: Tree<K>) {
    t.Nil? || (t.elem in m && m[t.elem] == Cell(Ptr(t.left), Ptr(t.right)) && Rep(m, t.left) && Rep(m, t.right))
  }

  lemma {:induction false} RepFrame<K>(m: Mem<K>, m': Mem<K>, t: Tree<K>)
    requires Rep(m, t) && forall n <- Nodes(t) | n in m :: n in m' && m'[n] == m[n]
    ensures Rep(m', t)
  {
    if t.Fork? {
      RepFrame(m, m', t.left);
      RepFrame(m, m', t.right);
    }
  }

  lemma {:induction false} NodesInOrder<K>(t: Tree<K>)
    ensures forall n :: n in Nodes(t) <==> n in InOrder(t)
  {
    if t.Fork? {
      NodesInOrder(t.left);
      NodesInOrder(t.right);
    }
  }

  // ---------- the left tree: its hole is at the far right ----------

  ghost function PlugLeft<K>(c: Spine<K>, t: Tree<K>): Tree<K> {
    if c.End? then t else PlugLeft(c.up, Fork(c.side, c.elem, t))
  }

  ghost function InOrderLeft<K>(c: Spine<K>): seq<Elem<K>> {
    if c.End? then [] else InOrderLeft(c.up) + InOrder(c.side) + [c.elem]
  }

  lemma {:induction false} PlugLeftFacts<K>(c: Spine<K>, t: Tree<K>)
    ensures InOrder(PlugLeft(c, t)) == InOrderLeft(c) + InOrder(t)
    ensures Nodes(PlugLeft(c, t)) == SpineNodes(c) + Nodes(t)
    ensures SpineDistinct(c) && Distinct(t) && SpineNodes(c) !! Nodes(t) ==> Distinct(PlugLeft(c, t))
  {
    if c.Link? {
      PlugLeftFacts(c.up, Fork(c.side, c.elem, t));
      assert InOrderLeft(c.up) + (InOrder(c.side) + [c.elem] + InOrder(t))
          == InOrderLeft(c.up) + InOrder(c.side) + [c.elem] + InOrder(t);
    }
  }

  /** The links of the left tree, apart from the one at its hole. */
  ghost predicate RepLeft<K>(m: Mem<K>, header: Elem<K>, c: Spine<K>) {
    c.End? ||
    (c.elem in m && m[c.elem].left == Ptr(c.side) && Rep(m, c.side) && RepLeft(m, header, c.up)
     && Tail(c.up, header) in m && m[Tail(c.up, header)].right == c.elem)
  }

  lemma {:induction false} RepLeftFrame<K>(m: Mem<K>, m': Mem<K>, header: Elem<K>, c: Spine<K>)
    requires RepLeft(m, header, c) && SpineDistinct(c) && header !in SpineNodes(c)
    requires c.Link? ==> header in m && header in m' && m'[header].right == m[header].right
    requires forall n <- SpineNodes(c) | n in m ::
      n in m' && m'[n].left == m[n].left && (n != Tail(c, header) ==> m'[n].right == m[n].right)
    ensures RepLeft(m', header, c)
  {
    if c.Link? {
      RepFrame(m, m', c.side);
      RepLeftFrame(m, m', header, c.up);
    }
  }

  /** Filling the hole completes the tree, below the header's right link. */
  lemma {:induction false} RepPlugLeft<K>(m: Mem<K>, header: Elem<K>, c: Spine<K>, t: Tree<K>)
    requires RepLeft(m, header, c) && Rep(m, t) && Tail(c, header) in m && m[Tail(c, header)].right == Ptr(t)
    ensures Rep(m, PlugLeft(c, t)) && header in m && m[header].right == Ptr(PlugLeft(c, t))
  {
    if c.Link? {
      RepPlugLeft(m, header, c.up, Fork(c.side, c.elem, t));
    }
  }


  // ---------- the right tree: its hole is at the far left ----------

  ghost function PlugRight<K>(c: Spine<K>, t: Tree<K>): Tree<K> {
    if c.End? then t else PlugRight(c.up, Fork(t, c.elem, c.side))
  }

  ghost function InOrderRight<K>(c: Spine<K>): seq<Elem<K>> {
    if c.End? then [] else [c.elem] + InOrder(c.side) + InOrderRight(c.up)
  }

  lemma {:induction false} PlugRightFacts<K>(c: Spine<K>, t: Tree<K>)
    ensures InOrder(PlugRight(c, t)) == InOrder(t) + InOrderRight(c)
    ensures Nodes(PlugRight(c, t)) == SpineNodes(c) + Nodes(t)
    ensures SpineDistinct(c) && Distinct(t) && SpineNodes(c) !! Nodes(t) ==> Distinct(PlugRight(c, t))
  {
    if c.Link? {
      PlugRightFacts(c.up, Fork(t, c.elem, c.side));
      assert (InOrder(t) + [c.elem] + InOrder(c.side)) + InOrderRight(c.up)
          == InOrder(t) + ([c.elem] + InOrder(c.side) + InOrderRight(c.up));
    }
  }

  /** The links of the right tree, apart from the one at its hole. */
  ghost predicate RepRight<K>(m: Mem<K>, header: Elem<K>, c: Spine<K>) {
    c.End? ||
    (c.elem in m && m[c.elem].right == Ptr(c.side) && Rep(m, c.side) && RepRight(m, header, c.up)
     && Tail(c.up, header) in m && m[Tail(c.up, header)].left == c.elem)
  }

  lemma {:induction false} RepRightFrame<K>(m: Mem<K>, m': Mem<K>, header: Elem<K>, c: Spine<K>)
    requires RepRight(m, header, c) && SpineDistinct(c) && header !in SpineNodes(c)
    requires c.Link? ==> header in m && header in m' && m'[header].left == m[header].left
    requires forall n <- SpineNodes(c) | n in m ::
      n in m' && m'[n].right == m[n].right && (n != Tail(c, header) ==> m'[n].left == m[n].left)
    ensures RepRight(m', header, c)
  {
    if c.Link? {
      RepFrame(m, m', c.side);
      RepRightFrame(m, m', header, c.up);
    }
  }

  /** Filling the hole completes the tree, below the header's left link. */
  lemma {:induction false} RepPlugRight<K>(m: Mem<K>, header: Elem<K>, c: Spine<K>, t: Tree<K>)
    requires RepRight(m, header, c) && Rep(m, t) && Tail(c, header) in m && m[Tail(c, header)].left == Ptr(t)
    ensures Rep(m, PlugRight(c, t)) && header in m && m[header].left == Ptr(PlugRight(c, t))
  {
    if c.Link? {
      RepPlugRight(m, header, c.up, Fork(t, c.elem, c.side));
    }
  }

  // ---------- a state of the loop ----------

  /** The left tree `l`, the part `t` still to be searched, and the right tree `r`. */
  ghost predicate Split<K>(m: Mem<K>, header: Elem<K>, root: Elem?<K>, l: Spine<K>, t: Tree<K>, r: Spine<K>) {
    && SplitNodes(l, t, r) && header !in SpineNodes(l) + Nodes(t) + SpineNodes(r)
    && m.Keys == {header} + SpineNodes(l) + Nodes(t) + SpineNodes(r)
    && RepLeft(m, header, l) && Rep(m, t) && RepRight(m, header, r) && root == Ptr(t)
  }

  ghost predicate SplitNodes<K>(l: Spine<K>, t: Tree<K>, r: Spine<K>) {
    && SpineDistinct(l) && Distinct(t) && SpineDistinct(r)
    && SpineNodes(l) !! Nodes(t) && SpineNodes(l) !! SpineNodes(r) && Nodes(t) !! SpineNodes(r)
  }

  ghost function Order<K>(l: Spine<K>, t: Tree<K>, r: Spine<K>): seq<Elem<K>> {
    InOrderLeft(l) + InOrder(t) + InOrderRight(r)
  }

  lemma Position<K>(l: Spine<K>, t: Tree<K>, r: Spine<K>)
    requires t.Fork?
    ensures |Order(l, t, r)| == |InOrderLeft(l)| + |InOrder(t.left)| + 1 + |InOrder(t.right)| + |InOrderRight(r)|
    ensures Order(l, t, r)[|InOrderLeft(l)| + |InOrder(t.left)|] == t.elem
  {
    assert InOrder(t)[|InOrder(t.left)|] == t.elem;
    assert (InOrderLeft(l) + InOrder(t))[|InOrderLeft(l)| + |InOrder(t.left)|] == t.elem;
  }

  /** Where `k` can still be. */
  ghost predicate Narrowed<K>(cmp: (K, K) -> int, order: seq<Elem<K>>, l: Spine<K>, r: Spine<K>, k: K) {
    && |InOrderLeft(l)| + |InOrderRight(r)| <= |order|
    && Below(cmp, order, |InOrderLeft(l)|, k) && Above(cmp, order, |order| - |InOrderRight(r)|, k)
  }

  /** The search is over: the root is `k`, or nothing is left on the side of `k`. */
  ghost predicate Stuck<K>(cmp: (K, K) -> int, t: Tree<K>, k: K) {
    t.Fork? && (cmp(k, t.elem.key) < 0 ==> t.left.Nil?) && (cmp(k, t.elem.key) > 0 ==> t.right.Nil?)
  }

  /** `t`'s root is `k` itself, or next to the place of `k` in key order. */
  ghost predicate AtRoot<K>(cmp: (K, K) -> int, t: Tree<K>, k: K) {
    t.Fork? &&
    var s, at := InOrder(t), |InOrder(t.left)|;
    && (cmp(k, t.elem.key) <= 0 ==> Below(cmp, s, at, k))
    && (cmp(k, t.elem.key) >= 0 ==> Above(cmp, s, at + 1, k))
  }

  ghost function Assembled<K>(l: Spine<K>, t: Tree<K>, r: Spine<K>): Tree<K>
    requires t.Fork?
  {
    Fork(PlugLeft(l, t.left), t.elem, PlugRight(r, t.right))
  }

  lemma AssembledOrder<K>(l: Spine<K>, t: Tree<K>, r: Spine<K>)
    requires t.Fork?
    ensures InOrder(Assembled(l, t, r)) == Order(l, t, r)
    ensures |InOrder(Assembled(l, t, r).left)| == |InOrderLeft(l)| + |InOrder(t.left)|
  {
    PlugLeftFacts(l, t.left);
    PlugRightFacts(r, t.right);
    Regroup(InOrderLeft(l), InOrder(t.left), t.elem, InOrder(t.right), InOrderRight(r));
  }

  lemma Regroup<K>(a: seq<Elem<K>>, b: seq<Elem<K>>, e: Elem<K>, c: seq<Elem<K>>, d: seq<Elem<K>>)
    ensures (a + b) + [e] + (c + d) == a + (b + [e] + c) + d
  {
  }

  lemma RegroupRotated<K>(a: seq<Elem<K>>, x: Elem<K>, b: seq<Elem<K>>, y: Elem<K>, c: seq<Elem<K>>)
    ensures (a + [x] + b) + [y] + c == a + [x] + (b + [y] + c)
  {
  }

  lemma OrderAtRoot<K>(t: Tree<K>)
    requires t.Fork?
    ensures InOrder(t) == InOrder(t.left) + [t.elem] + InOrder(t.right)
    ensures Size(t) == Size(t.left) + 1 + Size(t.right)
  {
  }

  lemma RegroupLinked<K>(a: seq<Elem<K>>, b: seq<Elem<K>>, e: Elem<K>, c: seq<Elem<K>>, d: seq<Elem<K>>)
    ensures a + b + ([e] + c + d) == a + (b + [e] + c) + d
    ensures (a + b + [e]) + c + d == a + (b + [e] + c) + d
  {
  }

  lemma StuckAtRoot<K(!new)>(cmp: (K, K) -> int, l: Spine<K>, t: Tree<K>, r: Spine<K>, k: K)
    requires Lawful(cmp) && Sorted(cmp, Order(l, t, r)) && Narrowed(cmp, Order(l, t, r), l, r, k) && Stuck(cmp, t, k)
    ensures AtRoot(cmp, Assembled(l, t, r), k)
  {
    var s, at := Order(l, t, r), |InOrderLeft(l)| + |InOrder(t.left)|;
    Position(l, t, r);
    AssembledOrder(l, t, r);
    SplitSearch(cmp, s, at, k);
  }

  /** SPLAY_ASSEMBLE (tree.h:105-110) */
  ghost predicate AssembledMem<K>(m: Mem<K>, m': Mem<K>, header: Elem<K>, l: Spine<K>, t: Tree<K>, r: Spine<K>)
    requires t.Fork?
  {
    && m'.Keys == m.Keys && {header, t.elem, Tail(l, header), Tail(r, header)} <= m.Keys
    && (l.Link? ==> m'[l.elem] == m[l.elem].(right := Ptr(t.left)))
    && (r.Link? ==> m'[r.elem] == m[r.elem].(left := Ptr(t.right)))
    && m'[header].left == (if r.End? then Ptr(t.right) else m[header].left)
    && m'[header].right == (if l.End? then Ptr(t.left) else m[header].right)
    && m'[t.elem] == Cell(m'[header].right, m'[header].left)
    && forall n <- m :: n != Tail(l, header) && n != Tail(r, header) && n != t.elem && n != header ==> m'[n] == m[n]
  }

  lemma AssembledRep<K>(m: Mem<K>, m': Mem<K>, header: Elem<K>, root: Elem?<K>, l: Spine<K>, t: Tree<K>, r: Spine<K>)
    requires Split(m, header, root, l, t, r) && t.Fork? && AssembledMem(m, m', header, l, t, r)
    ensures Rep(m', Assembled(l, t, r))
  {
    RepFrame(m, m', t.left);
    RepFrame(m, m', t.right);
    RepLeftFrame(m, m', header, l);
    RepRightFrame(m, m', header, r);
    RepPlugLeft(m', header, l, t.left);
    RepPlugRight(m', header, r, t.right);
  }

  lemma AssembledNodes<K>(l: Spine<K>, t: Tree<K>, r: Spine<K>)
    requires SplitNodes(l, t, r) && t.Fork?
    ensures Distinct(Assembled(l, t, r))
    ensures Nodes(Assembled(l, t, r)) == SpineNodes(l) + Nodes(t) + SpineNodes(r)
  {
    PlugLeftFacts(l, t.left);
    PlugRightFacts(r, t.right);
  }

  // ---------- when `k` is smaller than the root ----------

  /** SPLAY_ROTATE_RIGHT (tree.h:81-85) on trees. */
  ghost function RotatedRight<K>(t: Tree<K>): Tree<K>
    requires t.Fork? && t.left.Fork?
  {
    Fork(t.left.left, t.left.elem, Fork(t.left.right, t.elem, t.right))
  }

  ghost function RotatedRightMem<K>(m: Mem<K>, t: Tree<K>): Mem<K>
    requires t.Fork? && t.left.Fork? && {t.elem, t.left.elem} <= m.Keys
  {
    m[t.elem := m[t.elem].(left := m[t.left.elem].right)][t.left.elem := m[t.left.elem].(right := t.elem)]
  }

  lemma RotatedRightNodes<K>(t: Tree<K>)
    requires Distinct(t) && t.Fork? && t.left.Fork?
    ensures Distinct(RotatedRight(t)) && Nodes(RotatedRight(t)) == Nodes(t)
  {
    assert Distinct(t.left) && Nodes(t.left) == Nodes(t.left.left) + {t.left.elem} + Nodes(t.left.right);
    assert Distinct(RotatedRight(t).right);
  }

  lemma RotatedRightRep<K>(m: Mem<K>, t: Tree<K>)
    requires Distinct(t) && Rep(m, t) && t.Fork? && t.left.Fork?
    ensures {t.elem, t.left.elem} <= m.Keys && t.elem != t.left.elem && m[t.left.elem].right == Ptr(t.left.right)
    ensures Rep(RotatedRightMem(m, t), RotatedRight(t))
  {
    assert Rep(m, t.left) && Distinct(t.left);
    var m' := RotatedRightMem(m, t);
    RepFrame(m, m', t.left.left);
    RepFrame(m, m', t.left.right);
    RepFrame(m, m', t.right);
  }

  lemma RotatedRightOk<K>(m: Mem<K>, header: Elem<K>, root: Elem?<K>, l: Spine<K>, t: Tree<K>, r: Spine<K>)
    requires Split(m, header, root, l, t, r) && t.Fork? && t.left.Fork?
    ensures {t.elem, t.left.elem} <= m.Keys && t.elem != t.left.elem && m[t.left.elem].right == Ptr(t.left.right)
    ensures Split(RotatedRightMem(m, t), header, t.left.elem, l, RotatedRight(t), r)
    ensures InOrder(RotatedRight(t)) == InOrder(t) && Size(RotatedRight(t)) == Size(t)
  {
    hide Rep, Distinct, InOrder, SpineDistinct, RotatedRight;
    RotatedRightNodes(t);
    RotatedRightRep(m, t);
    RotatedRightOrder(t);
    var m' := RotatedRightMem(m, t);
    assert t.elem in Nodes(t) && t.left.elem in Nodes(t);
    assert m'.Keys == m.Keys;
    RepLeftFrame(m, m', header, l);
    RepRightFrame(m, m', header, r);
  }

  lemma RotatedRightOrder<K>(t: Tree<K>)
    requires t.Fork? && t.left.Fork?
    ensures InOrder(RotatedRight(t)) == InOrder(t) && Size(RotatedRight(t)) == Size(t)
    ensures Ptr(RotatedRight(t)) == t.left.elem
  {
    OrderAtRoot(t);
    OrderAtRoot(t.left);
    OrderAtRoot(RotatedRight(t));
    OrderAtRoot(RotatedRight(t).right);
    hide InOrder, Size;
    RegroupRotated(InOrder(t.left.left), t.left.elem, InOrder(t.left.right), t.elem, InOrder(t.right));
  }

  /** SPLAY_LINKLEFT (tree.h:93-97): the root becomes the last node of the right tree. */
  lemma LinkLeftOk<K>(m: Mem<K>, header: Elem<K>, root: Elem?<K>, l: Spine<K>, t: Tree<K>, r: Spine<K>)
    requires Split(m, header, root, l, t, r) && t.Fork?
    ensures Tail(r, header) in m && t.elem in m && Tail(r, header) != t.elem && m[t.elem].left == Ptr(t.left)
    ensures var m' := m[Tail(r, header) := m[Tail(r, header)].(left := t.elem)];
      Split(m', header, Ptr(t.left), l, t.left, Link(r, t.elem, t.right))
  {
    hide Rep, Distinct, SpineDistinct;
    assert Tail(r, header) in {header} + SpineNodes(r);
    LinkLeftNodes(header, l, t, r);
    LinkLeftParts(m, Tail(r, header), t);
    var m' := m[Tail(r, header) := m[Tail(r, header)].(left := t.elem)];
    RepLeftFrame(m, m', header, l);
    RepRightFrame(m, m', header, r);
  }

  /** A store outside the remaining tree leaves it as it is. */
  lemma LinkLeftParts<K>(m: Mem<K>, tail: Elem<K>, t: Tree<K>)
    requires Rep(m, t) && t.Fork? && tail in m && tail !in Nodes(t)
    ensures var m' := m[tail := m[tail].(left := t.elem)];
      Rep(m', t.left) && Rep(m', t.right) && m'[t.elem] == m[t.elem] == Cell(Ptr(t.left), Ptr(t.right))
  {
    var m' := m[tail := m[tail].(left := t.elem)];
    RepFrame(m, m', t.left);
    RepFrame(m, m', t.right);
  }

  lemma LinkLeftNodes<K>(header: Elem<K>, l: Spine<K>, t: Tree<K>, r: Spine<K>)
    requires SplitNodes(l, t, r) && t.Fork?
    ensures SplitNodes(l, t.left, Link(r, t.elem, t.right))
    ensures {header} + SpineNodes(l) + Nodes(t) + SpineNodes(r)
         == {header} + SpineNodes(l) + Nodes(t.left) + SpineNodes(Link(r, t.elem, t.right))
    ensures SpineNodes(l) + Nodes(t) + SpineNodes(r)
         == SpineNodes(l) + Nodes(t.left) + SpineNodes(Link(r, t.elem, t.right))
  {
  }

  lemma LinkLeftOrder<K>(l: Spine<K>, t: Tree<K>, r: Spine<K>)
    requires t.Fork?
    ensures Order(l, t.left, Link(r, t.elem, t.right)) == Order(l, t, r)
    ensures Size(t.left) < Size(t)
  {
    RegroupLinked(InOrderLeft(l), InOrder(t.left), t.elem, InOrder(t.right), InOrderRight(r));
  }

  lemma NarrowedLeft<K(!new)>(cmp: (K, K) -> int, l: Spine<K>, t: Tree<K>, r: Spine<K>, k: K)
    requires Lawful(cmp) && Sorted(cmp, Order(l, t, r)) && Narrowed(cmp, Order(l, t, r), l, r, k)
    requires t.Fork? && cmp(k, t.elem.key) < 0
    ensures Narrowed(cmp, Order(l, t, r), l, Link(r, t.elem, t.right), k)
  {
    Position(l, t, r);
    SplitSearch(cmp, Order(l, t, r), |InOrderLeft(l)| + |InOrder(t.left)|, k);
  }


  // ---------- when `k` is larger than the root ----------

  /** SPLAY_ROTATE_LEFT (tree.h:87-91) on trees. */
  ghost function RotatedLeft<K>(t: Tree<K>): Tree<K>
    requires t.Fork? && t.right.Fork?
  {
    Fork(Fork(t.left, t.elem, t.right.left), t.right.elem, t.right.right)
  }

  ghost function RotatedLeftMem<K>(m: Mem<K>, t: Tree<K>): Mem<K>
    requires t.Fork? && t.right.Fork? && {t.elem, t.right.elem} <= m.Keys
  {
    m[t.elem := m[t.elem].(right := m[t.right.elem].left)][t.right.elem := m[t.right.elem].(left := t.elem)]
  }

  lemma RotatedLeftNodes<K>(t: Tree<K>)
    requires Distinct(t) && t.Fork? && t.right.Fork?
    ensures Distinct(RotatedLeft(t)) && Nodes(RotatedLeft(t)) == Nodes(t)
  {
    assert Distinct(t.right) && Nodes(t.right) == Nodes(t.right.right) + {t.right.elem} + Nodes(t.right.left);
    assert Distinct(RotatedLeft(t).left);
  }

  lemma RotatedLeftRep<K>(m: Mem<K>, t: Tree<K>)
    requires Distinct(t) && Rep(m, t) && t.Fork? && t.right.Fork?
    ensures {t.elem, t.right.elem} <= m.Keys && t.elem != t.right.elem && m[t.right.elem].left == Ptr(t.right.left)
    ensures Rep(RotatedLeftMem(m, t), RotatedLeft(t))
  {
    assert Rep(m, t.right) && Distinct(t.right);
    var m' := RotatedLeftMem(m, t);
    RepFrame(m, m', t.right.right);
    RepFrame(m, m', t.right.left);
    RepFrame(m, m', t.left);
  }

  lemma RotatedLeftOk<K>(m: Mem<K>, header: Elem<K>, root: Elem?<K>, l: Spine<K>, t: Tree<K>, r: Spine<K>)
    requires Split(m, header, root, l, t, r) && t.Fork? && t.right.Fork?
    ensures {t.elem, t.right.elem} <= m.Keys && t.elem != t.right.elem && m[t.right.elem].left == Ptr(t.right.left)
    ensures Split(RotatedLeftMem(m, t), header, t.right.elem, l, RotatedLeft(t), r)
    ensures InOrder(RotatedLeft(t)) == InOrder(t) && Size(RotatedLeft(t)) == Size(t)
  {
    hide Rep, Distinct, InOrder, SpineDistinct, RotatedLeft;
    RotatedLeftNodes(t);
    RotatedLeftRep(m, t);
    RotatedLeftOrder(t);
    var m' := RotatedLeftMem(m, t);
    assert t.elem in Nodes(t) && t.right.elem in Nodes(t);
    assert m'.Keys == m.Keys;
    RepLeftFrame(m, m', header, l);
    RepRightFrame(m, m', header, r);
  }

  lemma RotatedLeftOrder<K>(t: Tree<K>)
    requires t.Fork? && t.right.Fork?
    ensures InOrder(RotatedLeft(t)) == InOrder(t) && Size(RotatedLeft(t)) == Size(t)
    ensures Ptr(RotatedLeft(t)) == t.right.elem
  {
    OrderAtRoot(t);
    OrderAtRoot(t.right);
    OrderAtRoot(RotatedLeft(t));
    OrderAtRoot(RotatedLeft(t).left);
    hide InOrder, Size;
    RegroupRotated(InOrder(t.left), t.elem, InOrder(t.right.left), t.right.elem, InOrder(t.right.right));
  }

  /** SPLAY_LINKRIGHT (tree.h:99-103): the root becomes the last node of the left tree. */
  lemma LinkRightOk<K>(m: Mem<K>, header: Elem<K>, root: Elem?<K>, l: Spine<K>, t: Tree<K>, r: Spine<K>)
    requires Split(m, header, root, l, t, r) && t.Fork?
    ensures Tail(l, header) in m && t.elem in m && Tail(l, header) != t.elem && m[t.elem].right == Ptr(t.right)
    ensures var m' := m[Tail(l, header) := m[Tail(l, header)].(right := t.elem)];
      Split(m', header, Ptr(t.right), Link(l, t.elem, t.left), t.right, r)
  {
    hide Rep, Distinct, SpineDistinct;
    assert Tail(l, header) in {header} + SpineNodes(l);
    LinkRightNodes(header, l, t, r);
    LinkRightParts(m, Tail(l, header), t);
    var m' := m[Tail(l, header) := m[Tail(l, header)].(right := t.elem)];
    RepLeftFrame(m, m', header, l);
    RepRightFrame(m, m', header, r);
  }

  /** A store outside the remaining tree leaves it as it is. */
  lemma LinkRightParts<K>(m: Mem<K>, tail: Elem<K>, t: Tree<K>)
    requires Rep(m, t) && t.Fork? && tail in m && tail !in Nodes(t)
    ensures var m' := m[tail := m[tail].(right := t.elem)];
      Rep(m', t.right) && Rep(m', t.left) && m'[t.elem] == m[t.elem] == Cell(Ptr(t.left), Ptr(t.right))
  {
    var m' := m[tail := m[tail].(right := t.elem)];
    RepFrame(m, m', t.right);
    RepFrame(m, m', t.left);
  }

  lemma LinkRightNodes<K>(header: Elem<K>, l: Spine<K>, t: Tree<K>, r: Spine<K>)
    requires SplitNodes(l, t, r) && t.Fork?
    ensures SplitNodes(Link(l, t.elem, t.left), t.right, r)
    ensures {header} + SpineNodes(l) + Nodes(t) + SpineNodes(r)
         == {header} + SpineNodes(Link(l, t.elem, t.left)) + Nodes(t.right) + SpineNodes(r)
    ensures SpineNodes(l) + Nodes(t) + SpineNodes(r)
         == SpineNodes(Link(l, t.elem, t.left)) + Nodes(t.right) + SpineNodes(r)
  {
  }

  lemma LinkRightOrder<K>(l: Spine<K>, t: Tree<K>, r: Spine<K>)
    requires t.Fork?
    ensures Order(Link(l, t.elem, t.left), t.right, r) == Order(l, t, r)
    ensures Size(t.right) < Size(t)
  {
    RegroupLinked(InOrderLeft(l), InOrder(t.left), t.elem, InOrder(t.right), InOrderRight(r));
  }

  lemma NarrowedRight<K(!new)>(cmp: (K, K) -> int, l: Spine<K>, t: Tree<K>, r: Spine<K>, k: K)
    requires Lawful(cmp) && Sorted(cmp, Order(l, t, r)) && Narrowed(cmp, Order(l, t, r), l, r, k)
    requires t.Fork? && cmp(k, t.elem.key) > 0
    ensures Narrowed(cmp, Order(l, t, r), Link(l, t.elem, t.left), r, k)
  {
    Position(l, t, r);
    SplitSearch(cmp, Order(l, t, r), |InOrderLeft(l)| + |InOrder(t.left)|, k);
  }


  // ---------- the tree as an object ----------

  /** The memory `m`, entered at `root`, spells out exactly the tree `t`. */
  ghost predicate Spells<K>(m: Mem<K>, root: Elem?<K>, t: Tree<K>) {
    Distinct(t) && m.Keys == Nodes(t) && root == Ptr(t) && Rep(m, t)
  }

  lemma AssembledSpells<K>(m: Mem<K>, m': Mem<K>, m'': Mem<K>, header: Elem<K>, root: Elem?<K>, l: Spine<K>, t: Tree<K>,
                           r: Spine<K>)
    requires Split(m, header, root, l, t, r) && t.Fork? && AssembledMem(m, m', header, l, t, r)
    requires m''.Keys == m.Keys - {header} && forall n <- m'' :: m''[n] == m'[n]
    ensures Spells(m'', root, Assembled(l, t, r))
  {
    AssembledNodes(l, t, r);
    AssembledRep(m, m', header, root, l, t, r);
    RepFrame(m', m'', Assembled(l, t, r));
  }

  lemma TailsApart<K>(m: Mem<K>, header: Elem<K>, root: Elem?<K>, l: Spine<K>, t: Tree<K>, r: Spine<K>)
    requires Split(m, header, root, l, t, r) && t.Fork?
    ensures l.Link? ==> l.elem != header && l.elem != t.elem && (r.Link? ==> l.elem != r.elem)
    ensures r.Link? ==> r.elem != header && r.elem != t.elem
  {
  }

  lemma SplayStart<K>(m: Mem<K>, m': Mem<K>, header: Elem<K>, root: Elem?<K>, t: Tree<K>)
    requires Spells(m, root, t) && header !in m
    requires m'.Keys == m.Keys + {header} && forall n <- m :: m'[n] == m[n]
    ensures Split(m', header, root, End, t, End) && (root != null ==> t.Fork? && t.elem == root && root in m)
  {
    RepFrame(m, m', t);
  }

  lemma NothingRuledOut<K>(cmp: (K, K) -> int, t: Tree<K>, k: K)
    ensures Order(End, t, End) == InOrder(t) && Narrowed(cmp, Order(End, t, End), End, End, k)
  {
    hide InOrder;
    assert InOrderLeft<K>(End) == [] && InOrderRight<K>(End) == [];
    NothingAround(InOrder(t));
  }

  lemma NothingAround<T>(s: seq<T>)
    ensures [] + s + [] == s
  {
  }

  lemma InTree<K>(m: Mem<K>, header: Elem<K>, root: Elem?<K>, l: Spine<K>, t: Tree<K>, r: Spine<K>)
    requires Split(m, header, root, l, t, r) && t.Fork?
    ensures root == t.elem && root in m && root != header && m[root] == Cell(Ptr(t.left), Ptr(t.right))
    ensures Nodes(t) <= m.Keys - {header} && {Ptr(t.left), Ptr(t.right)} <= Nodes(t) + {null}
    ensures Tail(l, header) in m && Tail(r, header) in m
  {
  }

  /** The tree SPLAY_INSERT builds: `elm` above the old root, which keeps only its far side. */
  ghost function OnTop<K>(t: Tree<K>, elm: Elem<K>, comp: int): Tree<K>
    requires t.Fork?
  {
    if comp < 0 then Fork(t.left, elm, Fork(Nil, t.elem, t.right)) else Fork(Fork(t.left, t.elem, Nil), elm, t.right)
  }

  lemma OnTopOrder<K>(t: Tree<K>, elm: Elem<K>, comp: int)
    requires t.Fork?
    ensures var s, at := InOrder(t), |InOrder(t.left)| + if comp < 0 then 0 else 1;
      at <= |s| && InOrder(OnTop(t, elm, comp)) == s[..at] + [elm] + s[at..]
  {
    var a, c := InOrder(t.left), InOrder(t.right);
    CutAt(a, t.elem, c);
    if comp < 0 {
      assert InOrder(OnTop(t, elm, comp)) == a + [elm] + ([] + [t.elem] + c);
      assert [] + [t.elem] + c == [t.elem] + c;
    } else {
      assert InOrder(OnTop(t, elm, comp)) == (a + [t.elem] + []) + [elm] + c;
      assert a + [t.elem] + [] == a + [t.elem];
    }
  }

  lemma CutAt<K>(a: seq<Elem<K>>, e: Elem<K>, c: seq<Elem<K>>)
    ensures var s := a + [e] + c;
      s[|a|] == e && s[..|a|] == a && s[|a|..] == [e] + c && s[..|a| + 1] == a + [e] && s[|a| + 1..] == c
  {
  }

  lemma OnTopNodes<K>(t: Tree<K>, elm: Elem<K>, comp: int)
    requires Distinct(t) && t.Fork? && elm !in Nodes(t)
    ensures Distinct(OnTop(t, elm, comp)) && Nodes(OnTop(t, elm, comp)) == Nodes(t) + {elm}
  {
    if comp < 0 {
      assert Distinct(Fork(Nil, t.elem, t.right)) && Nodes(Fork(Nil, t.elem, t.right)) == {t.elem} + Nodes(t.right);
    } else {
      assert Distinct(Fork(t.left, t.elem, Nil)) && Nodes(Fork(t.left, t.elem, Nil)) == Nodes(t.left) + {t.elem};
    }
  }

  lemma OnTopSpells<K>(m: Mem<K>, m': Mem<K>, root: Elem?<K>, t: Tree<K>, elm: Elem<K>, comp: int)
    requires Spells(m, root, t) && t.Fork? && elm !in m && m'.Keys == m.Keys + {elm}
    requires m'[elm] == if comp < 0 then Cell(m[root].left, root) else Cell(root, m[root].right)
    requires m'[root] == if comp < 0 then Cell(null, m[root].right) else Cell(m[root].left, null)
    requires forall n <- m :: n != root ==> m'[n] == m[n]
    ensures Spells(m', elm, OnTop(t, elm, comp))
  {
    OnTopNodes(t, elm, comp);
    RepFrame(m, m', t.left);
    RepFrame(m, m', t.right);
  }

  /** The memory of one child alone. */
  lemma ChildSpells<K>(m: Mem<K>, m': Mem<K>, t: Tree<K>, child: Tree<K>)
    requires Distinct(t) && Rep(m, t) && t.Fork? && child in {t.left, t.right}
    requires m'.Keys == Nodes(child) <= m.Keys && forall n <- m' :: m'[n] == m[n]
    ensures Spells(m', Ptr(child), child)
  {
    RepFrame(m, m', child);
  }

  lemma WithoutRoot<K(!new)>(cmp: (K, K) -> int, t: Tree<K>, k: K)
    requires Lawful(cmp) && Sorted(cmp, InOrder(t)) && t.Fork? && cmp(k, t.elem.key) == 0
    ensures Sorted(cmp, InOrder(t.left)) && Sorted(cmp, InOrder(t.right))
    ensures Sorted(cmp, InOrder(t.left) + InOrder(t.right))
    ensures RemovedFrom(InOrder(t), t.elem, InOrder(t.left) + InOrder(t.right))
    ensures Below(cmp, InOrder(t.left), |InOrder(t.left)|, k)
  {
    var s, a, c := InOrder(t), InOrder(t.left), InOrder(t.right);
    CutAt(a, t.elem, c);
    SplitSearch(cmp, s, |a|, k);
    SortedRemoved(cmp, s, t.elem, a + c);
    SortedParts(cmp, a, c);
    BelowPart(cmp, s, |a|, k);
  }

  lemma SortedParts<K>(cmp: (K, K) -> int, a: seq<Elem<K>>, c: seq<Elem<K>>)
    requires Sorted(cmp, a + c)
    ensures Sorted(cmp, a) && Sorted(cmp, c)
  {
    assert forall i :: 0 <= i < |a| ==> a[i] == (a + c)[i];
    assert forall i :: 0 <= i < |c| ==> c[i] == (a + c)[|a| + i];
  }

  lemma BelowPart<K>(cmp: (K, K) -> int, s: seq<Elem<K>>, at: nat, k: K)
    requires Below(cmp, s, at, k)
    ensures Below(cmp, s[..at], at, k)
  {
  }

  /** Splaying for a key above everything leaves the root without a right child. */
  lemma NothingRight<K(!new)>(cmp: (K, K) -> int, t: Tree<K>, k: K)
    requires AtRoot(cmp, t, k) && Below(cmp, InOrder(t), |InOrder(t)|, k)
    ensures t.right.Nil?
  {
    CutAt(InOrder(t.left), t.elem, InOrder(t.right));
    if t.right.Fork? {
      SomeAbove(cmp, InOrder(t), |InOrder(t.left)| + 1, k);
    }
  }

  lemma SomeAbove<K>(cmp: (K, K) -> int, s: seq<Elem<K>>, n: nat, k: K)
    requires 0 < n < |s| && (cmp(k, s[n - 1].key) >= 0 ==> Above(cmp, s, n, k))
    ensures !Below(cmp, s, |s|, k)
  {
    assert cmp(k, s[n - 1].key) < 0 || cmp(k, s[n].key) < 0;
  }

  lemma RootLinks<K>(m: Mem<K>, root: Elem?<K>, t: Tree<K>)
    requires Spells(m, root, t) && root != null
    ensures t.Fork? && root == t.elem && root in m && m[root] == Cell(Ptr(t.left), Ptr(t.right))
    ensures Rep(m, t.left) && Rep(m, t.right) && Nodes(t) == m.Keys && Distinct(t)
    ensures Nodes(t.left) + Nodes(t.right) == m.Keys - {root} && Nodes(t.left) !! Nodes(t.right)
  {
  }

  lemma NoneLeft<K>(t: Tree<K>, s: seq<Elem<K>>)
    requires t.Nil?
    ensures InOrder(t) + s == s && Nodes(t) == {}
  {
  }

  /** Hanging `c` to the right of a root that has nothing there. */
  lemma JoinedSpells<K>(m1: Mem<K>, m: Mem<K>, m': Mem<K>, root: Elem?<K>, t: Tree<K>, c: Tree<K>)
    requires Spells(m1, root, t) && t.Fork? && t.right.Nil?
    requires Spells(m, Ptr(c), c) && m.Keys !! m1.Keys && m'.Keys == m1.Keys + m.Keys
    requires m'[root] == m1[root].(right := Ptr(c)) && forall n <- m1 :: n != root ==> m'[n] == m1[n]
    requires forall n <- m :: m'[n] == m[n]
    ensures Spells(m', root, Fork(t.left, t.elem, c))
    ensures InOrder(Fork(t.left, t.elem, c)) == InOrder(t) + InOrder(c)
  {
    JoinedNodes(t, c);
    JoinedOrder(t, c);
    JoinedRep(m1, m, m', t, c);
    hide Distinct, Nodes, Rep, InOrder;
  }

  lemma JoinedNodes<K>(t: Tree<K>, c: Tree<K>)
    requires t.Fork? && t.right.Nil? && Distinct(t) && Distinct(c) && Nodes(t) !! Nodes(c)
    ensures Distinct(Fork(t.left, t.elem, c)) && Nodes(Fork(t.left, t.elem, c)) == Nodes(t) + Nodes(c)
  {
  }

  lemma JoinedOrder<K>(t: Tree<K>, c: Tree<K>)
    requires t.Fork? && t.right.Nil?
    ensures InOrder(Fork(t.left, t.elem, c)) == InOrder(t) + InOrder(c)
  {
    assert InOrder(t) == InOrder(t.left) + [t.elem];
  }

  lemma JoinedRep<K>(m1: Mem<K>, m: Mem<K>, m': Mem<K>, t: Tree<K>, c: Tree<K>)
    requires t.Fork? && Distinct(t) && Rep(m1, t) && Rep(m, c) && m1.Keys == Nodes(t) && m.Keys == Nodes(c)
    requires m'.Keys == m1.Keys + m.Keys && m'[t.elem] == m1[t.elem].(right := Ptr(c))
    requires (forall n <- m1 :: n != t.elem ==> m'[n] == m1[n]) && forall n <- m :: m'[n] == m[n]
    ensures Rep(m', Fork(t.left, t.elem, c))
  {
    RepFrame(m1, m', t.left);
    RepFrame(m, m', c);
  }

  // ---------- what the rotations are for ----------

  /** How many nodes a search for `k` passes. */
  ghost function PathLength<K>(cmp: (K, K) -> int, t: Tree<K>, k: K): nat {
    if t.Nil? then 0
    else if cmp(k, t.elem.key) < 0 then 1 + PathLength(cmp, t.left, k)
    else if cmp(k, t.elem.key) > 0 then 1 + PathLength(cmp, t.right, k)
    else 1
  }

  /** How many nodes have been linked to a side. */
  ghost function Length<K>(c: Spine<K>): nat {
    if c.End? then 0 else 1 + Length(c.up)
  }

  /** Two nodes of a search path of `d` nodes have been passed for every node linked to a side, but for one more
      where the search has just turned away from that side. */
  ghost predicate Halved<K>(cmp: (K, K) -> int, l: Spine<K>, t: Tree<K>, r: Spine<K>, k: K, d: nat)
    requires t.Fork?
  {
    var comp, n := cmp(k, t.elem.key), PathLength(cmp, t, k);
    && 2 * Length(l) + n <= d + (if comp <= 0 then 1 else 0)
    && 2 * Length(r) + n <= d + (if comp >= 0 then 1 else 0)
  }

  /** A turn to the left keeps it: straight on, thanks to the rotation, it links one node for two it passes. */
  lemma HalvedLeft<K>(cmp: (K, K) -> int, l: Spine<K>, t: Tree<K>, r: Spine<K>, k: K, d: nat)
    requires t.Fork? && t.left.Fork? && cmp(k, t.elem.key) < 0 && Halved(cmp, l, t, r, k, d)
    ensures cmp(k, t.left.elem.key) >= 0 ==> Halved(cmp, l, t.left, Link(r, t.elem, t.right), k, d)
    ensures cmp(k, t.left.elem.key) < 0 ==> Halved(cmp, l, RotatedRight(t), r, k, d)
    ensures cmp(k, t.left.elem.key) < 0 && t.left.left.Fork? ==>
      var u := RotatedRight(t); Halved(cmp, l, u.left, Link(r, u.elem, u.right), k, d)
  {
    if cmp(k, t.left.elem.key) < 0 {
      assert PathLength(cmp, t.left, k) == 1 + PathLength(cmp, t.left.left, k);
      assert PathLength(cmp, RotatedRight(t), k) == 1 + PathLength(cmp, t.left.left, k);
    }
  }

  lemma HalvedRight<K>(cmp: (K, K) -> int, l: Spine<K>, t: Tree<K>, r: Spine<K>, k: K, d: nat)
    requires t.Fork? && t.right.Fork? && cmp(k, t.elem.key) > 0 && Halved(cmp, l, t, r, k, d)
    ensures cmp(k, t.right.elem.key) <= 0 ==> Halved(cmp, Link(l, t.elem, t.left), t.right, r, k, d)
    ensures cmp(k, t.right.elem.key) > 0 ==> Halved(cmp, l, RotatedLeft(t), r, k, d)
    ensures cmp(k, t.right.elem.key) > 0 && t.right.right.Fork? ==>
      var u := RotatedLeft(t); Halved(cmp, Link(l, u.elem, u.left), u.right, r, k, d)
  {
    if cmp(k, t.right.elem.key) > 0 {
      assert PathLength(cmp, t.right, k) == 1 + PathLength(cmp, t.right.right, k);
      assert PathLength(cmp, RotatedLeft(t), k) == 1 + PathLength(cmp, t.right.right, k);
    }
  }

  lemma HalvedStart<K>(cmp: (K, K) -> int, t: Tree<K>, k: K)
    requires t.Fork?
    ensures Halved(cmp, End, t, End, k, PathLength(cmp, t, k))
  {
  }

  lemma HalvedEnd<K>(cmp: (K, K) -> int, l: Spine<K>, t: Tree<K>, r: Spine<K>, k: K, d: nat)
    requires t.Fork? && Halved(cmp, l, t, r, k, d)
    ensures 2 * Length(l) <= d && 2 * Length(r) <= d
  {
  }

  /** The nodes that a search for `k` passes. */
  ghost function PathNodes<K>(cmp: (K, K) -> int, t: Tree<K>, k: K): set<Elem<K>> {
    if t.Nil? then {}
    else if cmp(k, t.elem.key) < 0 then {t.elem} + PathNodes(cmp, t.left, k)
    else if cmp(k, t.elem.key) > 0 then {t.elem} + PathNodes(cmp, t.right, k)
    else {t.elem}
  }

  /** The nodes less than `n` levels below the root. */
  ghost function Upper<K>(t: Tree<K>, n: nat): set<Elem<K>> {
    if t.Nil? || n == 0 then {} else {t.elem} + Upper(t.left, n - 1) + Upper(t.right, n - 1)
  }

  lemma {:induction false} UpperMono<K>(t: Tree<K>, n: nat, m: nat)
    requires n <= m
    ensures Upper(t, n) <= Upper(t, m)
  {
    if t.Fork? && n > 0 {
      UpperMono(t.left, n - 1, m - 1);
      UpperMono(t.right, n - 1, m - 1);
    }
  }

  /** The nodes linked to a side, and the roots of the trees that hang from them. */
  ghost function Linked<K>(c: Spine<K>): set<Elem<K>> {
    if c.End? then {} else Linked(c.up) + {c.elem} + Upper(c.side, 1)
  }

  lemma {:induction false} LinkedRight<K>(c: Spine<K>, t: Tree<K>, n: nat)
    requires n >= 1
    ensures Linked(c) + Upper(t, n) <= Upper(PlugRight(c, t), n + Length(c))
  {
    if c.Link? {
      var u := Fork(t, c.elem, c.side);
      LinkedRight(c.up, u, n + 1);
      UpperMono(c.side, 1, n);
      assert Upper(u, n + 1) == {c.elem} + Upper(t, n) + Upper(c.side, n);
    }
  }

  lemma {:induction false} LinkedLeft<K>(c: Spine<K>, t: Tree<K>, n: nat)
    requires n >= 1
    ensures Linked(c) + Upper(t, n) <= Upper(PlugLeft(c, t), n + Length(c))
  {
    if c.Link? {
      var u := Fork(c.side, c.elem, t);
      LinkedLeft(c.up, u, n + 1);
      UpperMono(c.side, 1, n);
      assert Upper(u, n + 1) == {c.elem} + Upper(c.side, n) + Upper(t, n);
    }
  }

  /** The nodes of the search path are linked to a side, or hang there, or have not been passed yet. */
  ghost predicate Carried<K>(path: set<Elem<K>>, cmp: (K, K) -> int, l: Spine<K>, t: Tree<K>, r: Spine<K>, k: K) {
    path <= Linked(l) + PathNodes(cmp, t, k) + Linked(r)
  }

  /** The same where the search stops, which may be after a rotation. */
  ghost predicate CarriedOver<K>(path: set<Elem<K>>, l: Spine<K>, t: Tree<K>, r: Spine<K>) {
    path <= Linked(l) + Upper(t, 2) + Linked(r)
  }

  lemma CarriedLeft<K>(path: set<Elem<K>>, cmp: (K, K) -> int, l: Spine<K>, t: Tree<K>, r: Spine<K>, k: K)
    requires t.Fork? && cmp(k, t.elem.key) < 0 && Carried(path, cmp, l, t, r, k)
    ensures t.left.Nil? ==> CarriedOver(path, l, t, r)
    ensures t.left.Fork? ==> Carried(path, cmp, l, t.left, Link(r, t.elem, t.right), k)
    ensures t.left.Fork? && cmp(k, t.left.elem.key) < 0 ==>
      var u := RotatedRight(t);
      if u.left.Nil? then CarriedOver(path, l, u, r) else Carried(path, cmp, l, u.left, Link(r, u.elem, u.right), k)
  {
    RotatedUpper(t);
    if t.left.Nil? {
      assert PathNodes(cmp, t, k) == {t.elem} + {};
    } else if cmp(k, t.left.elem.key) < 0 {
      assert PathNodes(cmp, t.left, k) == {t.left.elem} + PathNodes(cmp, t.left.left, k);
    }
  }

  lemma RotatedUpper<K>(t: Tree<K>)
    requires t.Fork?
    ensures t.elem in Upper(t, 2)
    ensures t.left.Fork? ==> var u := RotatedRight(t);
      t.elem in Upper(u.right, 1) && {t.elem, t.left.elem} <= Upper(u, 2)
    ensures t.right.Fork? ==> var u := RotatedLeft(t);
      t.elem in Upper(u.left, 1) && {t.elem, t.right.elem} <= Upper(u, 2)
  {
    if t.left.Fork? {
      assert Upper(RotatedRight(t), 2) >= Upper(RotatedRight(t).right, 1);
    }
    if t.right.Fork? {
      assert Upper(RotatedLeft(t), 2) >= Upper(RotatedLeft(t).left, 1);
    }
  }

  lemma CarriedRight<K>(path: set<Elem<K>>, cmp: (K, K) -> int, l: Spine<K>, t: Tree<K>, r: Spine<K>, k: K)
    requires t.Fork? && cmp(k, t.elem.key) > 0 && Carried(path, cmp, l, t, r, k)
    ensures t.right.Nil? ==> CarriedOver(path, l, t, r)
    ensures t.right.Fork? ==> Carried(path, cmp, Link(l, t.elem, t.left), t.right, r, k)
    ensures t.right.Fork? && cmp(k, t.right.elem.key) > 0 ==>
      var u := RotatedLeft(t);
      if u.right.Nil? then CarriedOver(path, l, u, r) else Carried(path, cmp, Link(l, u.elem, u.left), u.right, r, k)
  {
    RotatedUpper(t);
    if t.right.Nil? {
      assert PathNodes(cmp, t, k) == {t.elem} + {};
    } else if cmp(k, t.right.elem.key) > 0 {
      assert PathNodes(cmp, t.right, k) == {t.right.elem} + PathNodes(cmp, t.right.right, k);
    }
  }

  lemma CarriedStart<K>(cmp: (K, K) -> int, t: Tree<K>, k: K)
    ensures Carried(PathNodes(cmp, t, k), cmp, End, t, End, k)
  {
  }

  lemma CarriedHome<K>(path: set<Elem<K>>, cmp: (K, K) -> int, l: Spine<K>, t: Tree<K>, r: Spine<K>, k: K)
    requires t.Fork? && cmp(k, t.elem.key) == 0 && Carried(path, cmp, l, t, r, k)
    ensures CarriedOver(path, l, t, r)
  {
  }

  /** The nodes of the search path end up in the upper half of their old levels. */
  lemma Flattened<K>(path: set<Elem<K>>, l: Spine<K>, t: Tree<K>, r: Spine<K>, d: nat)
    requires t.Fork? && CarriedOver(path, l, t, r) && 2 * Length(l) <= d && 2 * Length(r) <= d
    ensures path <= Upper(Assembled(l, t, r), d / 2 + 2)
  {
    LinkedLeft(l, t.left, 1);
    LinkedRight(r, t.right, 1);
    var u, n := Assembled(l, t, r), d / 2 + 1;
    UpperMono(u.left, 1 + Length(l), n);
    UpperMono(u.right, 1 + Length(r), n);
    assert Upper(t, 2) == {t.elem} + Upper(t.left, 1) + Upper(t.right, 1);
    assert Upper(u, n + 1) == {t.elem} + Upper(u.left, n) + Upper(u.right, n);
    hide Upper, Linked;
  }

  /** SPLAY_HEAD (tree.h:57-60), with the comparison given to SPLAY_GENERATE. `nodes` and `tree`
      describe the nodes hung below `root`. */
  class Head<K(!new)> {
    var root: Elem?<K>
    const cmp: (K, K) -> int
    ghost var nodes: set<Elem<K>>
    ghost var tree: Tree<K>

    ghost predicate Valid()
      reads this, nodes
    {
      Lawful(cmp) && Spells(Snap(nodes), root, tree) && Sorted(cmp, InOrder(tree))
    }

    /** The nodes in key order. */
    ghost function Contents(): seq<Elem<K>>
      reads this
    {
      InOrder(tree)
    }

    /** SPLAY_INIT */
    constructor (cmp: (K, K) -> int)
      requires Lawful(cmp)
      ensures Valid() && Contents() == [] && nodes == {} && this.cmp == cmp
    {
      this.cmp := cmp;
      root, nodes, tree := null, {}, Nil;
    }

    /** What the loop of SPLAY keeps: the same nodes in the same order, and `k` nowhere outside `t`. */
    ghost predicate Splaying(header: Elem<K>, l: Spine<K>, t: Tree<K>, r: Spine<K>, k: K)
      reads this, nodes, header
    {
      && Lawful(cmp) && Sorted(cmp, InOrder(tree)) && header !in nodes
      && Split(Snap(nodes + {header}), header, root, l, t, r) && t.Fork?
      && Order(l, t, r) == InOrder(tree) && Narrowed(cmp, Order(l, t, r), l, r, k)
    }

    lemma SplayStarts(header: Elem<K>, k: K)
      requires Valid() && root != null && header !in nodes
      ensures Splaying(header, End, tree, End, k) && root == tree.elem
    {
      SplayStart(Snap(nodes), Snap(nodes + {header}), header, root, tree);
      NothingRuledOut(cmp, tree, k);
    }

    /** SPLAY_ROTATE_RIGHT (tree.h:81-85) */
    method RotateRight(tmp: Elem<K>, header: Elem<K>, ghost l: Spine<K>, ghost t: Tree<K>, ghost r: Spine<K>)
      requires Split(Snap(nodes + {header}), header, root, l, t, r) && header !in nodes
      requires t.Fork? && t.left.Fork? && tmp == t.left.elem
      modifies `root, nodes
      ensures Split(Snap(nodes + {header}), header, root, l, RotatedRight(t), r)
      ensures Order(l, RotatedRight(t), r) == Order(l, t, r) && Size(RotatedRight(t)) == Size(t)
    {
      hide Split, InOrder, Size;
      ghost var m := Snap(nodes + {header});
      RotatedRightOk(m, header, root, l, t, r);
      InTree(m, header, root, l, t, r);
      root.left := tmp.right;
      tmp.right := root;
      root := tmp;
      assert Snap(nodes + {header}) == RotatedRightMem(m, t);
    }

    /** SPLAY_LINKLEFT (tree.h:93-97) */
    method LinkLeft(tmp: Elem<K>, header: Elem<K>, ghost l: Spine<K>, ghost t: Tree<K>, ghost r: Spine<K>)
      returns (tmp': Elem<K>)
      requires Split(Snap(nodes + {header}), header, root, l, t, r) && header !in nodes
      requires t.Fork? && tmp == Tail(r, header)
      modifies `root, nodes, header
      ensures Split(Snap(nodes + {header}), header, root, l, t.left, Link(r, t.elem, t.right))
      ensures tmp' == t.elem
    {
      hide Split;
      ghost var m := Snap(nodes + {header});
      LinkLeftOk(m, header, root, l, t, r);
      InTree(m, header, root, l, t, r);
      tmp.left := root;
      tmp' := root;
      root := root.left;
      assert Snap(nodes + {header}) == m[tmp := m[tmp].(left := t.elem)];
    }

    /** One turn of SPLAY's loop for a key below the root's (tree.h:212-221). */
    method StepLeft(k: K, right: Elem<K>, header: Elem<K>,
                    ghost l: Spine<K>, ghost t: Tree<K>, ghost r: Spine<K>,
                    ghost d: nat, ghost path: set<Elem<K>>)
      returns (stop: bool, tmp': Elem<K>, ghost t': Tree<K>, ghost r': Spine<K>)
      requires Splaying(header, l, t, r, k) && root == t.elem
      requires cmp(k, t.elem.key) < 0 && right == Tail(r, header)
      requires Halved(cmp, l, t, r, k, d) && Carried(path, cmp, l, t, r, k)
      modifies `root, nodes, header
      ensures Splaying(header, l, t', r', k) && tmp' == Tail(r', header)
      ensures t'.Fork? && root == t'.elem && Halved(cmp, l, t', r', k, d)
      ensures stop ==> Stuck(cmp, t', k) && CarriedOver(path, l, t', r')
      ensures !stop ==> Size(t') < Size(t) && Carried(path, cmp, l, t', r', k)
    {
      hide Split, InOrder, Order, Narrowed, Lawful, Sorted, Nodes, SpineNodes, Size;
      hide Halved, PathLength, Carried, CarriedOver;
      InTree(Snap(nodes + {header}), header, root, l, t, r);
      CarriedLeft(path, cmp, l, t, r, k);
      stop, tmp', t', r' := true, right, t, r;
      var tmp := root.left;
      if tmp == null {
        return;
      }
      HalvedLeft(cmp, l, t, r, k, d);
      if cmp(k, tmp.key) < 0 {
        RotateRight(tmp, header, l, t, r);
        t' := RotatedRight(t);
        InTree(Snap(nodes + {header}), header, root, l, t', r);
        if root.left == null {
          return;
        }
      }
      NarrowedLeft(cmp, l, t', r, k);
      LinkLeftOrder(l, t', r);
      tmp' := LinkLeft(right, header, l, t', r);
      t', r' := t'.left, Link(r, t'.elem, t'.right);
      stop := false;
      InTree(Snap(nodes + {header}), header, root, l, t', r');
    }


    /** SPLAY_ROTATE_LEFT (tree.h:87-91) */
    method RotateLeft(tmp: Elem<K>, header: Elem<K>, ghost l: Spine<K>, ghost t: Tree<K>, ghost r: Spine<K>)
      requires Split(Snap(nodes + {header}), header, root, l, t, r) && header !in nodes
      requires t.Fork? && t.right.Fork? && tmp == t.right.elem
      modifies `root, nodes
      ensures Split(Snap(nodes + {header}), header, root, l, RotatedLeft(t), r)
      ensures Order(l, RotatedLeft(t), r) == Order(l, t, r) && Size(RotatedLeft(t)) == Size(t)
    {
      hide Split, InOrder, Size;
      ghost var m := Snap(nodes + {header});
      RotatedLeftOk(m, header, root, l, t, r);
      InTree(m, header, root, l, t, r);
      root.right := tmp.left;
      tmp.left := root;
      root := tmp;
      assert Snap(nodes + {header}) == RotatedLeftMem(m, t);
    }

    /** SPLAY_LINKRIGHT (tree.h:99-103) */
    method LinkRight(tmp: Elem<K>, header: Elem<K>, ghost l: Spine<K>, ghost t: Tree<K>, ghost r: Spine<K>)
      returns (tmp': Elem<K>)
      requires Split(Snap(nodes + {header}), header, root, l, t, r) && header !in nodes
      requires t.Fork? && tmp == Tail(l, header)
      modifies `root, nodes, header
      ensures Split(Snap(nodes + {header}), header, root, Link(l, t.elem, t.left), t.right, r)
      ensures tmp' == t.elem
    {
      hide Split;
      ghost var m := Snap(nodes + {header});
      LinkRightOk(m, header, root, l, t, r);
      InTree(m, header, root, l, t, r);
      tmp.right := root;
      tmp' := root;
      root := root.right;
      assert Snap(nodes + {header}) == m[tmp := m[tmp].(right := t.elem)];
    }

    /** One turn of SPLAY's loop for a key above the root's (tree.h:222-231). */
    method StepRight(k: K, left: Elem<K>, header: Elem<K>,
                    ghost l: Spine<K>, ghost t: Tree<K>, ghost r: Spine<K>,
                    ghost d: nat, ghost path: set<Elem<K>>)
      returns (stop: bool, tmp': Elem<K>, ghost t': Tree<K>, ghost l': Spine<K>)
      requires Splaying(header, l, t, r, k) && root == t.elem
      requires cmp(k, t.elem.key) > 0 && left == Tail(l, header)
      requires Halved(cmp, l, t, r, k, d) && Carried(path, cmp, l, t, r, k)
      modifies `root, nodes, header
      ensures Splaying(header, l', t', r, k) && tmp' == Tail(l', header)
      ensures t'.Fork? && root == t'.elem && Halved(cmp, l', t', r, k, d)
      ensures stop ==> Stuck(cmp, t', k) && CarriedOver(path, l', t', r)
      ensures !stop ==> Size(t') < Size(t) && Carried(path, cmp, l', t', r, k)
    {
      hide Split, InOrder, Order, Narrowed, Lawful, Sorted, Nodes, SpineNodes, Size;
      hide Halved, PathLength, Carried, CarriedOver;
      InTree(Snap(nodes + {header}), header, root, l, t, r);
      CarriedRight(path, cmp, l, t, r, k);
      stop, tmp', t', l' := true, left, t, l;
      var tmp := root.right;
      if tmp == null {
        return;
      }
      HalvedRight(cmp, l, t, r, k, d);
      if cmp(k, tmp.key) > 0 {
        RotateLeft(tmp, header, l, t, r);
        t' := RotatedLeft(t);
        InTree(Snap(nodes + {header}), header, root, l, t', r);
        if root.right == null {
          return;
        }
      }
      NarrowedRight(cmp, l, t', r, k);
      LinkRightOrder(l, t', r);
      tmp' := LinkRight(left, header, l, t', r);
      t', l' := t'.right, Link(l, t'.elem, t'.left);
      stop := false;
      InTree(Snap(nodes + {header}), header, root, l', t', r);
    }

    /** SPLAY_ASSEMBLE (tree.h:105-110): the finished left and right trees become the root's children. */
    method Assemble(node: Elem<K>, left: Elem<K>, right: Elem<K>,
                    ghost l: Spine<K>, ghost t: Tree<K>, ghost r: Spine<K>)
      requires Split(Snap(nodes + {node}), node, root, l, t, r) && t.Fork? && node !in nodes
      requires left == Tail(l, node) && right == Tail(r, node)
      modifies nodes, node
      ensures Spells(Snap(nodes), root, Assembled(l, t, r))
    {
      hide Split, Rep, Distinct, Assembled;
      ghost var m := Snap(nodes + {node});
      InTree(m, node, root, l, t, r);
      TailsApart(m, node, root, l, t, r);
      left.right := root.left;
      right.left := root.right;
      root.left := node.right;
      root.right := node.left;
      AssembledSpells(m, Snap(nodes + {node}), Snap(nodes), node, root, l, t, r);
    }

    /** SPLAY (tree.h:202-235). The source reads the root of an empty tree through a null pointer;
        its callers test for that case first. */
    method Splay(k: K)
      requires Valid() && root != null
      modifies `root, `tree, nodes
      ensures Valid() && Contents() == old(Contents()) && AtRoot(cmp, tree, k) && root != null
      ensures PathNodes(cmp, old(tree), k) <= Upper(tree, PathLength(cmp, old(tree), k) / 2 + 2)
    {
      hide Split, InOrder, Splaying, Nodes, SpineNodes, Size, Valid, AtRoot, Assembled, Halved, PathLength;
      hide Carried, CarriedOver, PathNodes, Upper;
      var node := new Elem(k);
      var left, right := node, node;
      ghost var l, t, r := End, tree, End;
      SplayStarts(node, k);
      ghost var d, path, over := PathLength(cmp, tree, k), PathNodes(cmp, tree, k), false;
      HalvedStart(cmp, tree, k);
      CarriedStart(cmp, tree, k);
      var comp := cmp(k, root.key);
      while comp != 0
        invariant Splaying(node, l, t, r, k) && left == Tail(l, node) && right == Tail(r, node)
        invariant tree == old(tree) && t.Fork? && root == t.elem && comp == cmp(k, root.key)
        invariant Halved(cmp, l, t, r, k, d) && Carried(path, cmp, l, t, r, k) && !over
        decreases Size(t)
      {
        var stop;
        if comp < 0 {
          stop, right, t, r := StepLeft(k, right, node, l, t, r, d, path);
        } else {
          stop, left, t, l := StepRight(k, left, node, l, t, r, d, path);
        }
        if stop {
          over := true;
          break;
        }
        comp := cmp(k, root.key);
      }
      HalvedEnd(cmp, l, t, r, k, d);
      if !over {
        CarriedHome(path, cmp, l, t, r, k);
      }
      Flattened(path, l, t, r, d);
      Finish(k, node, left, right, l, t, r);
    }

    /** The end of SPLAY: what the loop's exit and SPLAY_ASSEMBLE give together. */
    method Finish(k: K, node: Elem<K>, left: Elem<K>, right: Elem<K>,
                  ghost l: Spine<K>, ghost t: Tree<K>, ghost r: Spine<K>)
      requires Splaying(node, l, t, r, k) && Stuck(cmp, t, k) && left == Tail(l, node) && right == Tail(r, node)
      modifies `tree, nodes, node
      ensures Valid() && Contents() == old(Contents()) && AtRoot(cmp, tree, k) && root != null
      ensures t.Fork? && tree == Assembled(l, t, r)
    {
      hide Split, InOrder, Order, Narrowed, Lawful, Sorted, Spells, AtRoot, Assembled;
      InTree(Snap(nodes + {node}), node, root, l, t, r);
      StuckAtRoot(cmp, l, t, r, k);
      AssembledOrder(l, t, r);
      Assemble(node, left, right, l, t, r);
      tree := Assembled(l, t, r);
    }

    /** SPLAY_FIND (tree.h:120-130) */
    method Find(k: K) returns (r: Elem?<K>)
      requires Valid()
      modifies `root, `tree, nodes
      ensures Valid() && Contents() == old(Contents())
      ensures r != null ==> r == root && r in Contents() && cmp(k, r.key) == 0
      ensures r == null ==> forall x <- Contents() :: cmp(k, x.key) != 0
    {
      if root == null {
        return null;
      }
      Splay(k);
      if cmp(k, root.key) == 0 {
        return root;
      }
      RootSplits(k);
      return null;
    }

    /** The root of a splayed tree other than `k` separates the smaller keys from the larger ones. */
    lemma RootSplits(k: K)
      requires Valid() && AtRoot(cmp, tree, k)
      ensures cmp(k, tree.elem.key) != 0 ==> forall x <- Contents() :: cmp(k, x.key) != 0
      ensures cmp(k, tree.elem.key) < 0 ==>
        Below(cmp, Contents(), |InOrder(tree.left)|, k) && Above(cmp, Contents(), |InOrder(tree.left)|, k)
      ensures cmp(k, tree.elem.key) > 0 ==>
        Below(cmp, Contents(), |InOrder(tree.left)| + 1, k) && Above(cmp, Contents(), |InOrder(tree.left)| + 1, k)
    {
      var at := |InOrder(tree.left)|;
      assert Contents()[at] == tree.elem;
      SplitSearch(cmp, Contents(), at, k);
      if cmp(k, tree.elem.key) < 0 {
        Absent(cmp, Contents(), at, k);
      } else if cmp(k, tree.elem.key) > 0 {
        Absent(cmp, Contents(), at + 1, k);
      }
    }

    lemma OnlyMember(elm: Elem<K>)
      requires Valid() && root != null && cmp(elm.key, root.key) == 0
      ensures root in nodes && (elm in nodes ==> elm == root)
    {
      NodesInOrder(tree);
      if elm in nodes {
        SameKey(cmp, Contents(), elm, root);
      }
    }

    lemma NotAMember(elm: Elem<K>)
      requires Valid() && forall x <- Contents() :: cmp(elm.key, x.key) != 0
      ensures elm !in nodes
    {
      hide Sorted, InOrder, Rep;
      NodesInOrder(tree);
      assert LawfulAt(cmp, elm.key, elm.key, elm.key);
    }

    /** SPLAY_INSERT (tree.h:157-179). A node that is in the tree already is splayed to the root and returned. */
    method Insert(elm: Elem<K>) returns (r: Elem?<K>)
      requires Valid()
      modifies this, nodes, elm
      ensures Valid()
      ensures elm in old(nodes) ==> r == elm
      ensures r != null ==> r in Contents() && r == root && cmp(elm.key, r.key) == 0
      ensures r != null ==> Contents() == old(Contents()) && nodes == old(nodes)
      ensures r != null && r != elm ==> unchanged(elm)
      ensures r == null ==> nodes == old(nodes) + {elm} && InsertedInto(old(Contents()), elm, Contents())
      ensures r == null ==> root == elm && forall x <- old(Contents()) :: cmp(elm.key, x.key) != 0
    {
      if root == null {
        elm.left, elm.right := null, null;
        tree, nodes, root := Fork(Nil, elm, Nil), {elm}, elm;
        assert [] + [elm] + [] == [elm];
        assert old(Contents())[..0] + [elm] + old(Contents())[0..] == Contents();
      } else {
        Splay(elm.key);
        var comp := cmp(elm.key, root.key);
        RootSplits(elm.key);
        if comp == 0 {
          OnlyMember(elm);
          return root;
        }
        NotAMember(elm);
        PutOnTop(elm, comp);
      }
      r := null;
    }

    /** The links SPLAY_INSERT sets after splaying (tree.h:166-177): the old root goes below the new one. */
    method PutOnTop(elm: Elem<K>, comp: int)
      requires Valid() && elm !in nodes && AtRoot(cmp, tree, elm.key) && comp == cmp(elm.key, root.key) != 0
      modifies this, nodes, elm
      ensures Valid() && nodes == old(nodes) + {elm} && InsertedInto(old(Contents()), elm, Contents()) && root == elm
    {
      hide Lawful, Sorted, Rep, AtRoot, InsertedInto, Valid;
      ghost var m := Snap(nodes);
      TopFacts(elm, comp);
      if comp < 0 {
        elm.left := root.left;
        elm.right := root;
        root.left := null;
      } else {
        elm.right := root.right;
        elm.left := root;
        root.right := null;
      }
      nodes := nodes + {elm};
      root := elm;
      tree := OnTop(tree, elm, comp);
      OnTopSpells(m, Snap(nodes), old(root), old(tree), elm, comp);
      StillValid();
    }

    lemma StillValid()
      requires Lawful(cmp) && Spells(Snap(nodes), root, tree) && Sorted(cmp, InOrder(tree))
      ensures Valid()
    {
    }

    lemma TopFacts(elm: Elem<K>, comp: int)
      requires Valid() && elm !in nodes && AtRoot(cmp, tree, elm.key) && comp == cmp(elm.key, root.key) != 0
      ensures Lawful(cmp) && Spells(Snap(nodes), root, tree) && root in nodes
      ensures var s' := InOrder(OnTop(tree, elm, comp));
        Sorted(cmp, s') && InsertedInto(Contents(), elm, s')
    {
      var at := |InOrder(tree.left)| + if comp < 0 then 0 else 1;
      RootSplits(elm.key);
      SortedInsert(cmp, Contents(), at, elm);
      OnTopOrder(tree, elm, comp);
    }

    /** The second half of SPLAY_REMOVE (tree.h:189-196): the left subtree is splayed for the removed key,
        which leaves its root without a right child, and the right subtree is hung there. */
    method DropRoot(elm: Elem<K>)
      requires Valid() && root != null && cmp(elm.key, root.key) == 0
      modifies this, nodes
      ensures Valid() && nodes == old(nodes) - {old(root)} && RemovedFrom(old(Contents()), old(root), Contents())
    {
      hide InOrder, Sorted, Lawful, Rep, Distinct, RemovedFrom, Below, Nodes;
      ghost var t, m := tree, Snap(nodes);
      RootLinks(m, root, t);
      WithoutRoot(cmp, t, elm.key);
      if root.left == null {
        root := root.right;
        tree, nodes := t.right, Nodes(t.right);
        ChildSpells(m, Snap(nodes), t, t.right);
        NoneLeft(t.left, InOrder(t.right));
      } else {
        var tmp := root.right;
        root := root.left;
        tree, nodes := t.left, Nodes(t.left);
        ChildSpells(m, Snap(nodes), t, t.left);
        ChildSpells(m, Snap(Nodes(t.right)), t, t.right);
        SplayLeft(elm.key, tmp, t.right);
      }
    }

    /** The harder branch: only the left subtree is splayed, and the right subtree `c` is then hung at its root. */
    method SplayLeft(k: K, tmp: Elem?<K>, ghost c: Tree<K>)
      requires Valid() && root != null && Below(cmp, Contents(), |Contents()|, k) && Nodes(c) !! nodes
      requires Spells(Snap(Nodes(c)), tmp, c) && Sorted(cmp, Contents() + InOrder(c))
      modifies this, nodes
      ensures Valid() && nodes == old(nodes) + Nodes(c) && Contents() == old(Contents()) + InOrder(c)
    {
      hide Sorted, InOrder, Lawful, Rep, AtRoot, Below, Distinct, Nodes, Valid;
      ghost var m := Snap(Nodes(c));
      Splay(k);
      ValidFacts();
      NothingRight(cmp, tree, k);
      ghost var m1 := Snap(nodes);
      RootLinks(m1, root, tree);
      root.right := tmp;
      nodes := nodes + Nodes(c);
      JoinedSpells(m1, m, Snap(nodes), root, tree, c);
      tree := Fork(tree.left, tree.elem, c);
      StillValid();
    }

    lemma ValidFacts()
      requires Valid()
      ensures Lawful(cmp) && Spells(Snap(nodes), root, tree) && Sorted(cmp, InOrder(tree)) && nodes == Nodes(tree)
    {
    }

    /** SPLAY_REMOVE (tree.h:182-200). On success the source returns its argument, not the node `gone`
        that left the tree. */
    method Remove(elm: Elem<K>) returns (r: Elem?<K>, ghost gone: Elem?<K>)
      requires Valid()
      modifies this, nodes
      ensures Valid()
      ensures r == null ==> Contents() == old(Contents()) && nodes == old(nodes)
      ensures r == null ==> forall x <- Contents() :: cmp(elm.key, x.key) != 0
      ensures r != null ==> r == elm && gone != null && gone in old(nodes) && cmp(elm.key, gone.key) == 0
      ensures r != null ==> nodes == old(nodes) - {gone} && RemovedFrom(old(Contents()), gone, Contents())
      ensures r != null ==> (gone == elm <==> elm in old(nodes))
    {
      gone := null;
      if root == null {
        return null, null;
      }
      Splay(elm.key);
      RootSplits(elm.key);
      if cmp(elm.key, root.key) == 0 {
        gone := root;
        OnlyMember(elm);
        DropRoot(elm);
        return elm, gone;
      }
      return null, null;
    }
  }
}
