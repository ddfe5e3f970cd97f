/** The red-black trees of src/tree.h: node objects rewritten in place. */
module RbTree {
  import opened Powers
  import opened TreeOrder
  import opened RbModel

  // ---------- memory and trees ----------

  /** The memory `m`, entered at `root`, spells out exactly the tree `t`. */
  ghost predicate Spells<K>(m: Mem<K>, root: Elem?<K>, t: Tree<K>) {
    Distinct(t) && m.Keys == Nodes(t) && root == Ptr(t) && Rep(m, t, null)
  }

  /** `Spells`, taken apart at a hole. */
  ghost predicate Holds<K>(m: Mem<K>, root: Elem?<K>, c: Ctx<K>, s: Tree<K>) {
    && CtxDistinct(c) && Distinct(s) && CtxNodes(c) !! Nodes(s) && m.Keys == CtxNodes(c) + Nodes(s)
    && root == RootPtr(c, Ptr(s)) && CtxRep(m, c, Ptr(s)) && Rep(m, s, CtxPtr(c))
  }

  lemma SpellsPlug<K>(m: Mem<K>, root: Elem?<K>, c: Ctx<K>, s: Tree<K>)
    ensures Spells(m, root, Plug(c, s)) <==> Holds(m, root, c, s)
  {
    NodesPlug(c, s);
    RepPlug(m, c, s);
  }

  lemma SameOrder<K>(c: Ctx<K>, s: Tree<K>, s': Tree<K>)
    requires InOrder(s) == InOrder(s')
    ensures InOrder(Plug(c, s)) == InOrder(Plug(c, s'))
  {
    InOrderPlug(c, s);
    InOrderPlug(c, s');
  }

  /** What the link fields at a hole and just above it say. */
  lemma Links<K>(m: Mem<K>, root: Elem?<K>, c: Ctx<K>, s: Tree<K>)
    requires Spells(m, root, Plug(c, s))
    ensures s.Node? ==> s.elem in m && m[s.elem] == Cell(Ptr(s.left), Ptr(s.right), CtxPtr(c), s.red)
    ensures c.OnLeft? ==> c.elem in m && m[c.elem] == Cell(Ptr(s), Ptr(c.sib), CtxPtr(c.up), c.red)
    ensures c.OnRight? ==> c.elem in m && m[c.elem] == Cell(Ptr(c.sib), Ptr(s), CtxPtr(c.up), c.red)
    ensures !c.Top? && s.Node? ==> Ptr(c.sib) != s.elem
    ensures (c.Top? ==> root == Ptr(s)) && (!c.Top? ==> root != null && root != Ptr(s))
  {
    SpellsPlug(m, root, c, s);
    if !c.Top? {
      RootInCtx(c, Ptr(s));
    }
  }

  lemma {:induction false} RootInCtx<K>(c: Ctx<K>, hole: Elem?<K>)
    requires !c.Top?
    ensures RootPtr(c, hole) != null && RootPtr(c, hole) in CtxNodes(c)
  {
    if !c.up.Top? { RootInCtx(c.up, c.elem); }
  }

  ghost function Painted<K>(m: Mem<K>, n: Elem<K>, red: bool): Mem<K>
    requires n in m
  {
    m[n := m[n].(red := red)]
  }

  lemma PaintHolds<K>(m: Mem<K>, root: Elem?<K>, c: Ctx<K>, s: Tree<K>, red: bool)
    requires Holds(m, root, c, s) && s.Node?
    ensures s.elem in m && Holds(Painted(m, s.elem, red), root, c, s.(red := red))
  {
    var m' := Painted(m, s.elem, red);
    RepFrame(m, m', s.left, s.elem);
    RepFrame(m, m', s.right, s.elem);
    CtxRepFrame(m, m', c, s.elem);
  }

  lemma PaintOk<K>(m: Mem<K>, root: Elem?<K>, c: Ctx<K>, s: Tree<K>, red: bool)
    requires Spells(m, root, Plug(c, s)) && s.Node?
    ensures s.elem in m && Spells(Painted(m, s.elem, red), root, Plug(c, s.(red := red)))
    ensures InOrder(Plug(c, s.(red := red))) == InOrder(Plug(c, s))
  {
    SpellsPlug(m, root, c, s);
    PaintHolds(m, root, c, s, red);
    SpellsPlug(Painted(m, s.elem, red), root, c, s.(red := red));
    SameOrder(c, s, s.(red := red));
  }

  // ---------- searching ----------

  /** Where a subtree's elements are in the whole sequence. */
  lemma Position<K>(c: Ctx<K>, t: Tree<K>)
    requires t.Node?
    ensures |InOrder(Plug(c, t))| == |Before(c)| + |InOrder(t.left)| + 1 + |InOrder(t.right)| + |After(c)|
    ensures InOrder(Plug(c, t))[|Before(c)| + |InOrder(t.left)|] == t.elem
  {
    InOrderPlug(c, t);
    assert InOrder(t)[|InOrder(t.left)|] == t.elem;
    assert (Before(c) + InOrder(t))[|Before(c)| + |InOrder(t.left)|] == t.elem;
  }

  /** In a search for `k`, everything outside the subtree `t` has been ruled out. */
  ghost predicate Narrowed<K>(cmp: (K, K) -> int, order: seq<Elem<K>>, c: Ctx<K>, t: Tree<K>, k: K) {
    && |Before(c)| + |InOrder(t)| + |After(c)| == |order|
    && Below(cmp, order, |Before(c)|, k) && Above(cmp, order, |order| - |After(c)|, k)
  }

  /** One comparison with the subtree's root. */
  lemma Probe<K(!new)>(cmp: (K, K) -> int, order: seq<Elem<K>>, c: Ctx<K>, t: Tree<K>, k: K)
    requires order == InOrder(Plug(c, t)) && t.Node?
    requires Lawful(cmp) && Sorted(cmp, order) && Narrowed(cmp, order, c, t, k)
    ensures cmp(k, t.elem.key) < 0 ==> Narrowed(cmp, order, OnLeft(c, t.elem, t.red, t.right), t.left, k)
    ensures cmp(k, t.elem.key) > 0 ==> Narrowed(cmp, order, OnRight(c, t.elem, t.red, t.left), t.right, k)
    ensures cmp(k, t.elem.key) == 0 ==> Below(cmp, order, |Before(c)| + |InOrder(t.left)|, k)
    ensures t.elem in order
  {
    hide Lawful, Sorted, Below, Above, InOrder, Before, After, Plug;
    var at := |Before(c)| + |InOrder(t.left)|;
    Position(c, t);
    SplitSearch(cmp, order, at, k);
    ProbeSizes(c, t);
  }

  /** At the start of a descent. */
  lemma NarrowedTop<K>(cmp: (K, K) -> int, t: Tree<K>, k: K)
    ensures Narrowed(cmp, InOrder(t), Top, t, k) && After<K>(Top) == []
  {
  }

  /** At its end. */
  lemma EmptyHole<K>(c: Ctx<K>)
    ensures var order := InOrder(Plug(c, Leaf));
      |order| == |Before(c)| + |After(c)| && (After(c) != [] ==> order[|Before(c)|] == After(c)[0])
  {
    InOrderPlug(c, Leaf);
    assert InOrder<K>(Leaf) == [];
  }

  lemma ProbeSizes<K>(c: Ctx<K>, t: Tree<K>)
    requires t.Node?
    ensures |Before(OnRight(c, t.elem, t.red, t.left))| == |Before(c)| + |InOrder(t.left)| + 1
    ensures |After(OnLeft(c, t.elem, t.red, t.right))| == 1 + |InOrder(t.right)| + |After(c)|
    ensures After(OnLeft(c, t.elem, t.red, t.right))[0] == t.elem
    ensures Before(OnLeft(c, t.elem, t.red, t.right)) == Before(c)
    ensures After(OnRight(c, t.elem, t.red, t.left)) == After(c)
    ensures |InOrder(t)| == |InOrder(t.left)| + 1 + |InOrder(t.right)|
  {
  }

  // ---------- rotations ----------

  lemma RotatedOrder<K>(a: seq<Elem<K>>, x: Elem<K>, b: seq<Elem<K>>, y: Elem<K>, c: seq<Elem<K>>)
    ensures (a + [x] + b) + [y] + c == a + [x] + (b + [y] + c)
  {
  }

  /** What RB_ROTATE_LEFT relies on: the nodes it touches exist and differ. */
  ghost predicate CanRotateLeft<K>(m: Mem<K>, elm: Elem<K>) {
    elm in m && m[elm].right != null && m[elm].right in m &&
    var tmp, up := m[elm].right, m[elm].parent;
    var inner := m[tmp].left;
    tmp != elm && inner != elm && inner != tmp && up != elm && up != tmp &&
    (inner != null ==> inner in m) && (up != null ==> up in m && up != inner)
  }

  /** RB_ROTATE_LEFT turned memory `m` into `m'`. */
  ghost predicate RotatedLeft<K>(m: Mem<K>, m': Mem<K>, elm: Elem<K>)
    requires CanRotateLeft(m, elm)
  {
    var tmp, up := m[elm].right, m[elm].parent;
    var inner := m[tmp].left;
    && m'.Keys == m.Keys
    && m'[elm] == m[elm].(right := inner, parent := tmp)
    && m'[tmp] == m[tmp].(left := elm, parent := up)
    && (inner != null ==> m'[inner] == m[inner].(parent := elm))
    && (up != null ==> m'[up] == if elm == m[up].left then m[up].(left := tmp) else m[up].(right := tmp))
    && (forall n <- m :: n != elm && n != tmp && n != inner && n != up ==> m'[n] == m[n])
  }

  ghost function LeftRotated<K>(s: Tree<K>): Tree<K>
    requires s.Node? && s.right.Node?
  {
    Node(Node(s.left, s.elem, s.red, s.right.left), s.right.elem, s.right.red, s.right.right)
  }

  lemma RotateLeftAllowed<K>(m: Mem<K>, root: Elem?<K>, c: Ctx<K>, s: Tree<K>)
    requires Spells(m, root, Plug(c, s)) && s.Node? && s.right.Node?
    ensures CanRotateLeft(m, s.elem) && m[s.elem].right == s.right.elem && m[s.elem].parent == CtxPtr(c)
  {
    SpellsPlug(m, root, c, s);
    assert Rep(m, s.right, s.elem) && Distinct(s.right);
  }

  lemma LeftRotatedNodes<K>(s: Tree<K>)
    requires Distinct(s) && s.Node? && s.right.Node?
    ensures Distinct(LeftRotated(s)) && Nodes(LeftRotated(s)) == Nodes(s)
    ensures InOrder(LeftRotated(s)) == InOrder(s)
  {
    LeftRotatedOrder(s);
    hide InOrder;
    assert Distinct(s.right) && Nodes(s.right) == Nodes(s.right.left) + {s.right.elem} + Nodes(s.right.right);
    assert Distinct(LeftRotated(s).left);
  }

  lemma LeftRotatedOrder<K>(s: Tree<K>)
    requires s.Node? && s.right.Node?
    ensures InOrder(LeftRotated(s)) == InOrder(s)
  {
    RotatedOrder(InOrder(s.left), s.elem, InOrder(s.right.left), s.right.elem, InOrder(s.right.right));
  }

  lemma LeftRotatedRep<K>(m: Mem<K>, m': Mem<K>, s: Tree<K>, up: Elem?<K>)
    requires Distinct(s) && s.Node? && s.right.Node? && Rep(m, s, up) && up !in Nodes(s)
    requires CanRotateLeft(m, s.elem) && RotatedLeft(m, m', s.elem)
    ensures Rep(m', LeftRotated(s), up)
  {
    assert Rep(m, s.right, s.elem) && Distinct(s.right);
    RepFrame(m, m', s.left, s.elem);
    RepRehang(m, m', s.right.left, s.right.elem, s.elem);
    RepFrame(m, m', s.right.right, s.right.elem);
  }

  lemma RotateLeftHolds<K>(m: Mem<K>, m': Mem<K>, root: Elem?<K>, c: Ctx<K>, s: Tree<K>)
    requires Holds(m, root, c, s) && s.Node? && s.right.Node?
    requires CanRotateLeft(m, s.elem) && RotatedLeft(m, m', s.elem)
    ensures Holds(m', if c.Top? then s.right.elem else root, c, LeftRotated(s))
  {
    LeftRotatedNodes(s);
    LeftRotatedRep(m, m', s, CtxPtr(c));
    SpellsPlug(m, root, c, s);
    RotateLeftAllowed(m, root, c, s);
    CtxRepRelink(m, m', c, s.elem, s.right.elem);
  }

  lemma RotateLeftOk<K>(m: Mem<K>, m': Mem<K>, root: Elem?<K>, c: Ctx<K>, s: Tree<K>)
    requires Spells(m, root, Plug(c, s)) && s.Node? && s.right.Node?
    requires CanRotateLeft(m, s.elem) && RotatedLeft(m, m', s.elem)
    ensures Spells(m', if c.Top? then s.right.elem else root, Plug(c, LeftRotated(s)))
    ensures InOrder(Plug(c, LeftRotated(s))) == InOrder(Plug(c, s))
  {
    SpellsPlug(m, root, c, s);
    RotateLeftHolds(m, m', root, c, s);
    SpellsPlug(m', if c.Top? then s.right.elem else root, c, LeftRotated(s));
    LeftRotatedNodes(s);
    SameOrder(c, s, LeftRotated(s));
  }

  /** What RB_ROTATE_RIGHT relies on: the nodes it touches exist and differ. */
  ghost predicate CanRotateRight<K>(m: Mem<K>, elm: Elem<K>) {
    elm in m && m[elm].left != null && m[elm].left in m &&
    var tmp, up := m[elm].left, m[elm].parent;
    var inner := m[tmp].right;
    tmp != elm && inner != elm && inner != tmp && up != elm && up != tmp &&
    (inner != null ==> inner in m) && (up != null ==> up in m && up != inner)
  }

  /** RB_ROTATE_RIGHT turned memory `m` into `m'`. */
  ghost predicate RotatedRight<K>(m: Mem<K>, m': Mem<K>, elm: Elem<K>)
    requires CanRotateRight(m, elm)
  {
    var tmp, up := m[elm].left, m[elm].parent;
    var inner := m[tmp].right;
    && m'.Keys == m.Keys
    && m'[elm] == m[elm].(left := inner, parent := tmp)
    && m'[tmp] == m[tmp].(right := elm, parent := up)
    && (inner != null ==> m'[inner] == m[inner].(parent := elm))
    && (up != null ==> m'[up] == if elm == m[up].left then m[up].(left := tmp) else m[up].(right := tmp))
    && (forall n <- m :: n != elm && n != tmp && n != inner && n != up ==> m'[n] == m[n])
  }

  ghost function RightRotated<K>(s: Tree<K>): Tree<K>
    requires s.Node? && s.left.Node?
  {
    Node(s.left.left, s.left.elem, s.left.red, Node(s.left.right, s.elem, s.red, s.right))
  }

  lemma RotateRightAllowed<K>(m: Mem<K>, root: Elem?<K>, c: Ctx<K>, s: Tree<K>)
    requires Spells(m, root, Plug(c, s)) && s.Node? && s.left.Node?
    ensures CanRotateRight(m, s.elem) && m[s.elem].left == s.left.elem && m[s.elem].parent == CtxPtr(c)
  {
    SpellsPlug(m, root, c, s);
    assert Rep(m, s.left, s.elem) && Distinct(s.left);
  }

  lemma RightRotatedNodes<K>(s: Tree<K>)
    requires Distinct(s) && s.Node? && s.left.Node?
    ensures Distinct(RightRotated(s)) && Nodes(RightRotated(s)) == Nodes(s)
    ensures InOrder(RightRotated(s)) == InOrder(s)
  {
    RightRotatedOrder(s);
    hide InOrder;
    assert Distinct(s.left) && Nodes(s.left) == Nodes(s.left.right) + {s.left.elem} + Nodes(s.left.left);
    assert Distinct(RightRotated(s).right);
  }

  lemma RightRotatedOrder<K>(s: Tree<K>)
    requires s.Node? && s.left.Node?
    ensures InOrder(RightRotated(s)) == InOrder(s)
  {
    RotatedOrder(InOrder(s.left.left), s.left.elem, InOrder(s.left.right), s.elem, InOrder(s.right));
  }

  lemma RightRotatedRep<K>(m: Mem<K>, m': Mem<K>, s: Tree<K>, up: Elem?<K>)
    requires Distinct(s) && s.Node? && s.left.Node? && Rep(m, s, up) && up !in Nodes(s)
    requires CanRotateRight(m, s.elem) && RotatedRight(m, m', s.elem)
    ensures Rep(m', RightRotated(s), up)
  {
    assert Rep(m, s.left, s.elem) && Distinct(s.left);
    RepFrame(m, m', s.right, s.elem);
    RepRehang(m, m', s.left.right, s.left.elem, s.elem);
    RepFrame(m, m', s.left.left, s.left.elem);
  }

  lemma RotateRightHolds<K>(m: Mem<K>, m': Mem<K>, root: Elem?<K>, c: Ctx<K>, s: Tree<K>)
    requires Holds(m, root, c, s) && s.Node? && s.left.Node?
    requires CanRotateRight(m, s.elem) && RotatedRight(m, m', s.elem)
    ensures Holds(m', if c.Top? then s.left.elem else root, c, RightRotated(s))
  {
    RightRotatedNodes(s);
    RightRotatedRep(m, m', s, CtxPtr(c));
    SpellsPlug(m, root, c, s);
    RotateRightAllowed(m, root, c, s);
    CtxRepRelink(m, m', c, s.elem, s.left.elem);
  }

  lemma RotateRightOk<K>(m: Mem<K>, m': Mem<K>, root: Elem?<K>, c: Ctx<K>, s: Tree<K>)
    requires Spells(m, root, Plug(c, s)) && s.Node? && s.left.Node?
    requires CanRotateRight(m, s.elem) && RotatedRight(m, m', s.elem)
    ensures Spells(m', if c.Top? then s.left.elem else root, Plug(c, RightRotated(s)))
    ensures InOrder(Plug(c, RightRotated(s))) == InOrder(Plug(c, s))
  {
    SpellsPlug(m, root, c, s);
    RotateRightHolds(m, m', root, c, s);
    SpellsPlug(m', if c.Top? then s.left.elem else root, c, RightRotated(s));
    RightRotatedNodes(s);
    SameOrder(c, s, RightRotated(s));
  }

  // ---------- restoring the colours after an insertion ----------

  ghost function Fill<K>(c: Ctx<K>, s: Tree<K>): (t: Tree<K>)
    requires !c.Top?
    ensures t.Node? && t.elem == c.elem && t.red == c.red && Plug(c, s) == Plug(c.up, t)
  {
    if c.OnLeft? then Node(s, c.elem, c.red, c.sib) else Node(c.sib, c.elem, c.red, s)
  }

  /** `s` is a balanced red tree; in `Plug(c, s)` only a red parent of `s` may be wrong. */
  ghost predicate InsertInv<K>(c: Ctx<K>, s: Tree<K>) {
    IsRed(s) && Balanced(s) && CtxBalanced(c, BlackHeight(s))
  }

  /** The red uncle's case: the two reds move up (tree.h:408-414). */
  ghost function UncleLeft<K>(c: Ctx<K>, s: Tree<K>): (t: Tree<K>)
    requires !c.Top? && c.up.OnLeft?
    ensures t.Node? && t.elem == c.up.elem
  {
    Node(Blacken(Fill(c, s)), c.up.elem, true, Blacken(c.up.sib))
  }

  lemma UncleLeftInv<K>(c: Ctx<K>, s: Tree<K>)
    requires InsertInv(c, s) && CtxRed(c) && c.up.OnLeft? && IsRed(c.up.sib)
    ensures InsertInv(c.up.up, UncleLeft(c, s))
  {
    assert CtxBalanced(c.up, BlackHeight(s));
  }

  lemma UncleLeftOk<K>(m: Mem<K>, root: Elem?<K>, c: Ctx<K>, s: Tree<K>)
    requires Spells(m, root, Plug(c, s)) && !c.Top? && c.up.OnLeft? && c.up.sib.Node?
    ensures {c.elem, c.up.elem, c.up.sib.elem} <= m.Keys
    ensures Spells(Painted(Painted(Painted(m, c.up.sib.elem, false), c.elem, false), c.up.elem, true),
                   root, Plug(c.up.up, UncleLeft(c, s)))
    ensures InOrder(Plug(c.up.up, UncleLeft(c, s))) == InOrder(Plug(c, s))
  {
    var up, g, gred, P, u := c.up.up, c.up.elem, c.up.red, Fill(c, s), c.up.sib;
    assert Plug(c, s) == Plug(c.up, P) == Plug(OnRight(up, g, gred, P), u);
    PaintOk(m, root, OnRight(up, g, gred, P), u, false);
    var m1, cg1 := Painted(m, u.elem, false), OnLeft(up, g, gred, Blacken(u));
    PaintOk(m1, root, cg1, P, false);
    PaintOk(Painted(m1, P.elem, false), root, up, Node(P.(red := false), g, gred, Blacken(u)), true);
  }

  /** After turning an inner grandchild into an outer one (tree.h:415-420). */
  lemma InnerLeftInv<K>(c: Ctx<K>, s: Tree<K>)
    requires InsertInv(c, s) && CtxRed(c) && c.OnRight?
    ensures InsertInv(OnLeft(c.up, s.elem, true, s.right), Node(c.sib, c.elem, true, s.left))
    ensures Plug(OnLeft(c.up, s.elem, true, s.right), Node(c.sib, c.elem, true, s.left))
         == Plug(c.up, LeftRotated(Fill(c, s)))
  {
  }

  /** Before the closing rotation: parent black, grandparent red (tree.h:421). */
  lemma OuterLeftOk<K>(m: Mem<K>, root: Elem?<K>, c: Ctx<K>, s: Tree<K>)
    requires Spells(m, root, Plug(c, s)) && c.OnLeft? && c.up.OnLeft?
    ensures {c.elem, c.up.elem} <= m.Keys
    ensures var t := Plug(c.up.up, Node(Node(s, c.elem, false, c.sib), c.up.elem, true, c.up.sib));
      Spells(Painted(Painted(m, c.elem, false), c.up.elem, true), root, t) && InOrder(t) == InOrder(Plug(c, s))
  {
    PaintOk(m, root, c.up, Fill(c, s), false);
    PaintOk(Painted(m, c.elem, false), root, c.up.up, Fill(c.up, Blacken(Fill(c, s))), true);
  }

  lemma OuterLeftInv<K>(c: Ctx<K>, s: Tree<K>)
    requires InsertInv(c, s) && CtxRed(c) && c.OnLeft? && c.up.OnLeft? && !IsRed(c.up.sib)
    ensures InsertInv(OnLeft(c.up.up, c.elem, false, Node(c.sib, c.up.elem, true, c.up.sib)), s)
  {
    assert CtxBalanced(c.up, BlackHeight(s));
  }


  /** The red uncle's case: the two reds move up (tree.h:424-430). */
  ghost function UncleRight<K>(c: Ctx<K>, s: Tree<K>): (t: Tree<K>)
    requires !c.Top? && c.up.OnRight?
    ensures t.Node? && t.elem == c.up.elem
  {
    Node(Blacken(c.up.sib), c.up.elem, true, Blacken(Fill(c, s)))
  }

  lemma UncleRightInv<K>(c: Ctx<K>, s: Tree<K>)
    requires InsertInv(c, s) && CtxRed(c) && c.up.OnRight? && IsRed(c.up.sib)
    ensures InsertInv(c.up.up, UncleRight(c, s))
  {
    assert CtxBalanced(c.up, BlackHeight(s));
  }

  lemma UncleRightOk<K>(m: Mem<K>, root: Elem?<K>, c: Ctx<K>, s: Tree<K>)
    requires Spells(m, root, Plug(c, s)) && !c.Top? && c.up.OnRight? && c.up.sib.Node?
    ensures {c.elem, c.up.elem, c.up.sib.elem} <= m.Keys
    ensures Spells(Painted(Painted(Painted(m, c.up.sib.elem, false), c.elem, false), c.up.elem, true),
                   root, Plug(c.up.up, UncleRight(c, s)))
    ensures InOrder(Plug(c.up.up, UncleRight(c, s))) == InOrder(Plug(c, s))
  {
    var up, g, gred, P, u := c.up.up, c.up.elem, c.up.red, Fill(c, s), c.up.sib;
    assert Plug(c, s) == Plug(c.up, P) == Plug(OnLeft(up, g, gred, P), u);
    PaintOk(m, root, OnLeft(up, g, gred, P), u, false);
    var m1, cg1 := Painted(m, u.elem, false), OnRight(up, g, gred, Blacken(u));
    PaintOk(m1, root, cg1, P, false);
    PaintOk(Painted(m1, P.elem, false), root, up, Node(Blacken(u), g, gred, P.(red := false)), true);
  }

  /** After turning an inner grandchild into an outer one (tree.h:431-436). */
  lemma InnerRightInv<K>(c: Ctx<K>, s: Tree<K>)
    requires InsertInv(c, s) && CtxRed(c) && c.OnLeft?
    ensures InsertInv(OnRight(c.up, s.elem, true, s.left), Node(s.right, c.elem, true, c.sib))
    ensures Plug(OnRight(c.up, s.elem, true, s.left), Node(s.right, c.elem, true, c.sib))
         == Plug(c.up, RightRotated(Fill(c, s)))
  {
  }

  /** Before the closing rotation: parent black, grandparent red (tree.h:437). */
  lemma OuterRightOk<K>(m: Mem<K>, root: Elem?<K>, c: Ctx<K>, s: Tree<K>)
    requires Spells(m, root, Plug(c, s)) && c.OnRight? && c.up.OnRight?
    ensures {c.elem, c.up.elem} <= m.Keys
    ensures var t := Plug(c.up.up, Node(c.up.sib, c.up.elem, true, Node(c.sib, c.elem, false, s)));
      Spells(Painted(Painted(m, c.elem, false), c.up.elem, true), root, t) && InOrder(t) == InOrder(Plug(c, s))
  {
    PaintOk(m, root, c.up, Fill(c, s), false);
    PaintOk(Painted(m, c.elem, false), root, c.up.up, Fill(c.up, Blacken(Fill(c, s))), true);
  }

  lemma OuterRightInv<K>(c: Ctx<K>, s: Tree<K>)
    requires InsertInv(c, s) && CtxRed(c) && c.OnRight? && c.up.OnRight? && !IsRed(c.up.sib)
    ensures InsertInv(OnRight(c.up.up, c.elem, false, Node(c.up.sib, c.up.elem, true, c.sib)), s)
  {
    assert CtxBalanced(c.up, BlackHeight(s));
  }

  // ---------- hanging a new node ----------

  lemma LinkOk<K>(m: Mem<K>, m': Mem<K>, root: Elem?<K>, c: Ctx<K>, elm: Elem<K>)
    requires Spells(m, root, Plug(c, Leaf)) && elm !in m && m'.Keys == m.Keys + {elm}
    requires m'[elm] == Cell(null, null, CtxPtr(c), true)
    requires !c.Top? ==> c.elem in m && m'[c.elem] == Relinked(c, m[c.elem], elm)
    requires forall n <- m :: n != CtxPtr(c) ==> m'[n] == m[n]
    ensures Spells(m', if c.Top? then elm else root, Plug(c, Node(Leaf, elm, true, Leaf)))
  {
    var s, root' := Node(Leaf, elm, true, Leaf), if c.Top? then elm else root;
    SpellsPlug(m, root, c, Leaf);
    LinkHolds(m, m', root, c, elm);
    SpellsPlug(m', root', c, s);
  }

  lemma LinkHolds<K>(m: Mem<K>, m': Mem<K>, root: Elem?<K>, c: Ctx<K>, elm: Elem<K>)
    requires Holds(m, root, c, Leaf) && elm !in m && m'.Keys == m.Keys + {elm}
    requires m'[elm] == Cell(null, null, CtxPtr(c), true)
    requires !c.Top? ==> c.elem in m && m'[c.elem] == Relinked(c, m[c.elem], elm)
    requires forall n <- m :: n != CtxPtr(c) ==> m'[n] == m[n]
    ensures Holds(m', if c.Top? then elm else root, c, Node(Leaf, elm, true, Leaf))
  {
    CtxRepRelink(m, m', c, null, elm);
    RootPtrHole(c, null, elm);
  }

  lemma {:induction false} RootPtrHole<K>(c: Ctx<K>, hole: Elem?<K>, hole': Elem?<K>)
    ensures c.Top? || RootPtr(c, hole) == RootPtr(c, hole')
  {
    if !c.Top? && c.up.Top? { }
  }

  lemma LinkOrder<K(!new)>(cmp: (K, K) -> int, c: Ctx<K>, elm: Elem<K>)
    requires Lawful(cmp) && Sorted(cmp, InOrder(Plug(c, Leaf)))
    requires Below(cmp, InOrder(Plug(c, Leaf)), |Before(c)|, elm.key)
    requires Above(cmp, InOrder(Plug(c, Leaf)), |Before(c)|, elm.key)
    ensures var order' := InOrder(Plug(c, Node(Leaf, elm, true, Leaf)));
      Sorted(cmp, order') && InsertedInto(InOrder(Plug(c, Leaf)), elm, order')
  {
    var e, s, at := Node(Leaf, elm, true, Leaf), InOrder(Plug(c, Leaf)), |Before(c)|;
    InOrderPlug(c, Leaf);
    InOrderPlug(c, e);
    assert InOrder(e) == [elm];
    assert s == Before(c) + After(c);
    assert InOrder(Plug(c, e)) == s[..at] + [elm] + s[at..];
    SortedInsert(cmp, s, at, elm);
  }

  // ---------- restoring the colours after a removal ----------

  /** `t` is one black node short of what its place in `c` asks for;
      if `t` is red, its children may be red too. */
  ghost predicate RemoveInv<K>(c: Ctx<K>, t: Tree<K>) {
    KidsBalanced(t) && CtxBalanced(c, BlackHeight(t) + 1)
  }

  /** The test of the loop for the side it is on: also an empty subtree has a sibling to be told from. */
  lemma SideOf<K>(m: Mem<K>, root: Elem?<K>, c: Ctx<K>, t: Tree<K>)
    requires Spells(m, root, Plug(c, t)) && RemoveInv(c, t) && !c.Top?
    ensures c.elem in m && (m[c.elem].left == Ptr(t) <==> c.OnLeft?)
  {
    hide Spells, Plug, CtxBalanced;
    Links(m, root, c, t);
    if c.OnRight? {
      SiblingExists(c, t);
    }
  }

  lemma SiblingExists<K>(c: Ctx<K>, t: Tree<K>)
    requires RemoveInv(c, t) && !c.Top?
    ensures c.sib.Node?
  {
  }

  /** The end of RB_REMOVE_COLOR: blackening `t` makes up for the missing node. */
  lemma RemoveEnd<K>(c: Ctx<K>, t: Tree<K>)
    requires RemoveInv(c, t) && (IsRed(t) || c.Top?)
    ensures RedBlack(Plug(c, Blacken(t)))
  {
    if IsRed(t) {
      BalancedPlug(c, Blacken(t), BlackHeight(t) + 1);
    }
  }

  /** A red sibling becomes the parent of the parent (tree.h:452-456). */
  ghost function RedSiblingLeft<K>(c: Ctx<K>): Ctx<K>
    requires c.OnLeft? && c.sib.Node?
  {
    OnLeft(OnLeft(c.up, c.sib.elem, false, c.sib.right), c.elem, true, c.sib.left)
  }

  lemma RedSiblingLeftInv<K>(c: Ctx<K>, t: Tree<K>)
    requires RemoveInv(c, t) && !IsRed(t) && c.OnLeft? && IsRed(c.sib)
    ensures var c' := RedSiblingLeft(c);
      RemoveInv(c', t) && c'.sib.Node? && !IsRed(c'.sib)
      && Plug(c', t) == Plug(c.up, LeftRotated(Node(t, c.elem, true, Blacken(c.sib))))
  {
    assert Balanced(c.sib.left) && Balanced(c.sib.right);
  }

  /** Both nephews black: the shortage moves up (tree.h:457-463). */
  lemma BlackNephewsLeftInv<K>(c: Ctx<K>, t: Tree<K>)
    requires RemoveInv(c, t) && !IsRed(t) && c.OnLeft? && c.sib.Node? && !c.sib.red
    requires !IsRed(c.sib.left) && !IsRed(c.sib.right)
    ensures RemoveInv(c.up, Node(t, c.elem, c.red, c.sib.(red := true)))
  {
  }

  /** A red near nephew and a black far one: turned the other way round (tree.h:465-473). */
  lemma NearNephewLeftInv<K>(c: Ctx<K>, t: Tree<K>)
    requires RemoveInv(c, t) && c.OnLeft? && c.sib.Node? && !c.sib.red
    requires IsRed(c.sib.left) && !IsRed(c.sib.right)
    ensures var sl := c.sib.left;
      var w := Node(sl.left, sl.elem, false, Node(sl.right, c.sib.elem, true, c.sib.right));
      RemoveInv(OnLeft(c.up, c.elem, c.red, w), t)
      && w == RightRotated(Node(Blacken(c.sib.left), c.sib.elem, true, c.sib.right))
  {
    var sl := c.sib.left;
    assert Balanced(sl);
    assert Balanced(Node(sl.right, c.sib.elem, true, c.sib.right));
    assert Balanced(Node(sl.left, sl.elem, false, Node(sl.right, c.sib.elem, true, c.sib.right)));
  }

  /** A red far nephew pays for the missing black node (tree.h:474-480). */
  ghost function FarNephewLeft<K>(c: Ctx<K>, t: Tree<K>): Tree<K>
    requires c.OnLeft? && c.sib.Node?
  {
    Node(Node(t, c.elem, false, c.sib.left), c.sib.elem, c.red, Blacken(c.sib.right))
  }

  lemma FarNephewLeftInv<K>(c: Ctx<K>, t: Tree<K>)
    requires RemoveInv(c, t) && !IsRed(t) && c.OnLeft? && c.sib.Node? && !c.sib.red && IsRed(c.sib.right)
    ensures RedBlack(Plug(c.up, FarNephewLeft(c, t)))
    ensures FarNephewLeft(c, t)
         == LeftRotated(Node(t, c.elem, false, Node(c.sib.left, c.sib.elem, c.red, Blacken(c.sib.right))))
  {
    assert Balanced(c.sib.right) && Balanced(c.sib.left);
    var s := FarNephewLeft(c, t);
    assert Balanced(Node(t, c.elem, false, c.sib.left)) && Balanced(Blacken(c.sib.right));
    assert BlackHeight(Blacken(c.sib.right)) == BlackHeight(Node(t, c.elem, false, c.sib.left));
    assert Balanced(s);
    BalancedPlug(c.up, s, BlackHeight(s));
  }


  /** A red sibling becomes the parent of the parent (tree.h:484-488). */
  ghost function RedSiblingRight<K>(c: Ctx<K>): Ctx<K>
    requires c.OnRight? && c.sib.Node?
  {
    OnRight(OnRight(c.up, c.sib.elem, false, c.sib.left), c.elem, true, c.sib.right)
  }

  lemma RedSiblingRightInv<K>(c: Ctx<K>, t: Tree<K>)
    requires RemoveInv(c, t) && !IsRed(t) && c.OnRight? && IsRed(c.sib)
    ensures var c' := RedSiblingRight(c);
      RemoveInv(c', t) && c'.sib.Node? && !IsRed(c'.sib)
      && Plug(c', t) == Plug(c.up, RightRotated(Node(Blacken(c.sib), c.elem, true, t)))
  {
    assert Balanced(c.sib.right) && Balanced(c.sib.left);
  }

  /** Both nephews black: the shortage moves up (tree.h:489-495). */
  lemma BlackNephewsRightInv<K>(c: Ctx<K>, t: Tree<K>)
    requires RemoveInv(c, t) && !IsRed(t) && c.OnRight? && c.sib.Node? && !c.sib.red
    requires !IsRed(c.sib.right) && !IsRed(c.sib.left)
    ensures RemoveInv(c.up, Node(c.sib.(red := true), c.elem, c.red, t))
  {
  }

  /** A red near nephew and a black far one: turned the other way round (tree.h:497-505). */
  lemma NearNephewRightInv<K>(c: Ctx<K>, t: Tree<K>)
    requires RemoveInv(c, t) && c.OnRight? && c.sib.Node? && !c.sib.red
    requires IsRed(c.sib.right) && !IsRed(c.sib.left)
    ensures var sr := c.sib.right;
      var w := Node(Node(c.sib.left, c.sib.elem, true, sr.left), sr.elem, false, sr.right);
      RemoveInv(OnRight(c.up, c.elem, c.red, w), t)
      && w == LeftRotated(Node(c.sib.left, c.sib.elem, true, Blacken(c.sib.right)))
  {
    var sl := c.sib.right;
    assert Balanced(sl);
    assert Balanced(Node(c.sib.left, c.sib.elem, true, sl.left));
    assert Balanced(Node(Node(c.sib.left, c.sib.elem, true, sl.left), sl.elem, false, sl.right));
  }

  /** A red far nephew pays for the missing black node (tree.h:506-512). */
  ghost function FarNephewRight<K>(c: Ctx<K>, t: Tree<K>): Tree<K>
    requires c.OnRight? && c.sib.Node?
  {
    Node(Blacken(c.sib.left), c.sib.elem, c.red, Node(c.sib.right, c.elem, false, t))
  }

  lemma FarNephewRightInv<K>(c: Ctx<K>, t: Tree<K>)
    requires RemoveInv(c, t) && !IsRed(t) && c.OnRight? && c.sib.Node? && !c.sib.red && IsRed(c.sib.left)
    ensures RedBlack(Plug(c.up, FarNephewRight(c, t)))
    ensures FarNephewRight(c, t)
         == RightRotated(Node(Node(Blacken(c.sib.left), c.sib.elem, c.red, c.sib.right), c.elem, false, t))
  {
    assert Balanced(c.sib.left) && Balanced(c.sib.right);
    var s := FarNephewRight(c, t);
    assert Balanced(Node(c.sib.right, c.elem, false, t)) && Balanced(Blacken(c.sib.left));
    assert BlackHeight(Blacken(c.sib.left)) == BlackHeight(Node(c.sib.right, c.elem, false, t));
    assert Balanced(s);
    BalancedPlug(c.up, s, BlackHeight(s));
  }

  // ---------- taking a node out ----------

  /** Every node of a tree is at some hole. */
  lemma {:induction false} FindHole<K>(c0: Ctx<K>, t: Tree<K>, n: Elem<K>) returns (c: Ctx<K>, s: Tree<K>)
    requires n in Nodes(t)
    ensures s.Node? && s.elem == n && Plug(c, s) == Plug(c0, t)
    decreases t
  {
    if n == t.elem {
      c, s := c0, t;
    } else if n in Nodes(t.left) {
      c, s := FindHole(OnLeft(c0, t.elem, t.red, t.right), t.left, n);
    } else {
      c, s := FindHole(OnRight(c0, t.elem, t.red, t.left), t.right, n);
    }
  }

  /** The child that takes the place of a node with at most one child. */
  ghost function OnlyChild<K>(s: Tree<K>): Tree<K>
    requires s.Node?
  {
    if s.left.Leaf? then s.right else s.left
  }

  /** Memory `m'` is `m` with `elm` cut out and `child` hung in its place. */
  ghost predicate Spliced<K>(m: Mem<K>, m': Mem<K>, elm: Elem<K>, child: Elem?<K>)
    requires elm in m && (m[elm].parent != null ==> m[elm].parent in m) && (child != null ==> child in m)
  {
    var up := m[elm].parent;
    && m'.Keys == m.Keys - {elm}
    && (child != null && child in m' ==> m'[child] == m[child].(parent := up))
    && (up != null && up in m' ==>
          m'[up] == if m[up].left == elm then m[up].(left := child) else m[up].(right := child))
    && (forall n <- m :: n != elm && n != child && n != up ==> m'[n] == m[n])
  }

  lemma SpliceHolds<K>(m: Mem<K>, m': Mem<K>, root: Elem?<K>, c: Ctx<K>, s: Tree<K>)
    requires Holds(m, root, c, s) && s.Node? && (s.left.Leaf? || s.right.Leaf?)
    requires Spliced(m, m', s.elem, Ptr(OnlyChild(s)))
    ensures Holds(m', if c.Top? then Ptr(OnlyChild(s)) else root, c, OnlyChild(s))
  {
    var child := OnlyChild(s);
    assert Distinct(child) && Rep(m, child, s.elem) && Nodes(s) == Nodes(child) + {s.elem};
    assert child.Node? ==> child.elem in Nodes(child);
    assert c.OnRight? ==> Ptr(c.sib) != s.elem;
    RepRehang(m, m', child, s.elem, CtxPtr(c));
    CtxRepRelink(m, m', c, s.elem, Ptr(child));
    RootPtrHole(c, s.elem, Ptr(child));
  }

  lemma SpliceAllowed<K>(m: Mem<K>, root: Elem?<K>, c: Ctx<K>, s: Tree<K>)
    requires Spells(m, root, Plug(c, s)) && s.Node? && (s.left.Leaf? || s.right.Leaf?)
    ensures s.elem in m && m[s.elem].parent == CtxPtr(c) && (m[s.elem].parent != null ==> m[s.elem].parent in m)
    ensures m[s.elem].parent != s.elem && s.elem != Ptr(OnlyChild(s))
    ensures Ptr(OnlyChild(s)) != null ==> Ptr(OnlyChild(s)) in m && Ptr(OnlyChild(s)) != CtxPtr(c)
  {
    SpellsPlug(m, root, c, s);
    var child := OnlyChild(s);
    assert child.Node? ==> child.elem in Nodes(child);
  }

  lemma SpliceOk<K>(m: Mem<K>, m': Mem<K>, root: Elem?<K>, c: Ctx<K>, s: Tree<K>)
    requires Spells(m, root, Plug(c, s)) && s.Node? && (s.left.Leaf? || s.right.Leaf?)
    requires s.elem in m && (m[s.elem].parent != null ==> m[s.elem].parent in m)
    requires Ptr(OnlyChild(s)) != null ==> Ptr(OnlyChild(s)) in m
    requires Spliced(m, m', s.elem, Ptr(OnlyChild(s)))
    ensures Spells(m', if c.Top? then Ptr(OnlyChild(s)) else root, Plug(c, OnlyChild(s)))
  {
    SpellsPlug(m, root, c, s);
    SpliceHolds(m, m', root, c, s);
    SpellsPlug(m', if c.Top? then Ptr(OnlyChild(s)) else root, c, OnlyChild(s));
  }

  /** Cutting out a node leaves red-black trees, or a tree one black node short at the cut. */
  lemma SpliceColours<K>(c: Ctx<K>, s: Tree<K>)
    requires RedBlack(Plug(c, s)) && s.Node? && (s.left.Leaf? || s.right.Leaf?)
    ensures s.red ==> RedBlack(Plug(c, OnlyChild(s)))
    ensures !s.red ==> RemoveInv(c, OnlyChild(s))
  {
    PlugBalanced(c, s);
    if s.red {
      BalancedPlug(c, OnlyChild(s), BlackHeight(s));
    }
  }

  lemma SpliceOrder<K>(c: Ctx<K>, s: Tree<K>)
    requires s.Node? && (s.left.Leaf? || s.right.Leaf?)
    ensures RemovedFrom(InOrder(Plug(c, s)), s.elem, InOrder(Plug(c, OnlyChild(s))))
  {
    InOrderPlug(c, s);
    InOrderPlug(c, OnlyChild(s));
    RemovedMiddle(Before(c), InOrder(s.left), s.elem, InOrder(s.right), After(c));
    assert InOrder(OnlyChild(s)) == InOrder(s.left) + InOrder(s.right);
  }

  // ---------- a node with two children: its successor takes its place ----------

  ghost function Compose<K>(o: Ctx<K>, k: Ctx<K>): Ctx<K> {
    match k
    case Top => o
    case OnLeft(up, n, red, sib) => OnLeft(Compose(o, up), n, red, sib)
    case OnRight(up, n, red, sib) => OnRight(Compose(o, up), n, red, sib)
  }

  lemma {:induction false} PlugCompose<K>(o: Ctx<K>, k: Ctx<K>, s: Tree<K>)
    ensures Plug(Compose(o, k), s) == Plug(o, Plug(k, s))
  {
    match k
    case Top =>
    case OnLeft(up, n, red, sib) => PlugCompose(o, up, Node(s, n, red, sib));
    case OnRight(up, n, red, sib) => PlugCompose(o, up, Node(sib, n, red, s));
  }

  /** `k` only ever descends to the left. */
  ghost predicate LeftSpine<K>(k: Ctx<K>) {
    k.Top? || (k.OnLeft? && LeftSpine(k.up))
  }

  lemma {:induction false} LeftSpineBefore<K>(k: Ctx<K>)
    requires LeftSpine(k)
    ensures Before(k) == []
  {
    if k.OnLeft? { LeftSpineBefore(k.up); }
  }

  ghost predicate RightSpine<K>(k: Ctx<K>) {
    k.Top? || (k.OnRight? && RightSpine(k.up))
  }

  lemma {:induction false} RightSpineAfter<K>(k: Ctx<K>)
    requires RightSpine(k)
    ensures After(k) == []
  {
    if k.OnRight? { RightSpineAfter(k.up); }
  }

  /** The hole left by the successor, below `n`. */
  ghost function HoleBelow<K>(c: Ctx<K>, n: Elem<K>, s: Tree<K>, k: Ctx<K>): Ctx<K>
    requires s.Node?
  {
    Compose(OnRight(c, n, s.red, s.left), k)
  }

  lemma {:induction false} RenameBalanced<K>(c: Ctx<K>, x: Elem<K>, y: Elem<K>, s: Tree<K>, k: Ctx<K>, h: nat)
    requires s.Node? && CtxBalanced(HoleBelow(c, x, s, k), h)
    ensures CtxBalanced(HoleBelow(c, y, s, k), h)
    ensures CtxRed(HoleBelow(c, y, s, k)) == CtxRed(HoleBelow(c, x, s, k))
  {
    if !k.Top? {
      RenameBalanced(c, x, y, s, k.up, if k.red then h else h + 1);
    }
  }

  lemma SuccessorColours<K>(c: Ctx<K>, s: Tree<K>, k: Ctx<K>, t: Tree<K>)
    requires s.Node? && t.Node? && t.left.Leaf? && Plug(k, t) == s.right && RedBlack(Plug(c, s))
    ensures t.red ==> RedBlack(Plug(HoleBelow(c, t.elem, s, k), t.right))
    ensures !t.red ==> RemoveInv(HoleBelow(c, t.elem, s, k), t.right)
  {
    var cx, cy := HoleBelow(c, s.elem, s, k), HoleBelow(c, t.elem, s, k);
    PlugCompose(OnRight(c, s.elem, s.red, s.left), k, t);
    PlugBalanced(cx, t);
    RenameBalanced(c, s.elem, t.elem, s, k, BlackHeight(t));
    if t.red {
      BalancedPlug(cy, t.right, BlackHeight(t));
    }
  }

  lemma SuccessorPlugs<K>(c: Ctx<K>, n: Elem<K>, s: Tree<K>, k: Ctx<K>, t: Tree<K>)
    requires s.Node?
    ensures Plug(HoleBelow(c, n, s, k), t) == Plug(c, Node(s.left, n, s.red, Plug(k, t)))
  {
    PlugCompose(OnRight(c, n, s.red, s.left), k, t);
  }

  lemma SuccessorOrder<K>(c: Ctx<K>, s: Tree<K>, k: Ctx<K>, t: Tree<K>)
    requires s.Node? && t.Node? && t.left.Leaf? && LeftSpine(k) && Plug(k, t) == s.right
    ensures RemovedFrom(InOrder(Plug(c, s)), s.elem, InOrder(Plug(HoleBelow(c, t.elem, s, k), t.right)))
  {
    SuccessorPlugs(c, t.elem, s, k, t.right);
    InOrderSuccessor(k, t);
    PlugRemoved(c, s, Node(s.left, t.elem, s.red, Plug(k, t.right)));
  }

  lemma FirstOut<K>(e: Elem<K>, s: seq<Elem<K>>, a: seq<Elem<K>>)
    ensures [] + ([] + [e] + s) + a == [e] + ([] + s + a)
  {
  }

  lemma InOrderSuccessor<K>(k: Ctx<K>, t: Tree<K>)
    requires t.Node? && t.left.Leaf? && LeftSpine(k)
    ensures InOrder(Plug(k, t)) == [t.elem] + InOrder(Plug(k, t.right))
  {
    LeftSpineBefore(k);
    InOrderPlug(k, t);
    InOrderPlug(k, t.right);
    FirstOut(t.elem, InOrder(t.right), After(k));
  }

  lemma PlugRemoved<K>(c: Ctx<K>, s: Tree<K>, s': Tree<K>)
    requires s.Node? && s'.Node? && s'.left == s.left && InOrder(s.right) == [s'.elem] + InOrder(s'.right)
    ensures RemovedFrom(InOrder(Plug(c, s)), s.elem, InOrder(Plug(c, s')))
  {
    ClosedGap(s, s');
    InOrderPlug(c, s);
    InOrderPlug(c, s');
    RemovedMiddle(Before(c), InOrder(s.left), s.elem, InOrder(s.right), After(c));
  }

  lemma Reassociated<K>(l: seq<Elem<K>>, e: Elem<K>, r: seq<Elem<K>>)
    ensures l + [e] + r == l + ([e] + r)
  {
  }

  lemma ClosedGap<K>(s: Tree<K>, s': Tree<K>)
    requires s.Node? && s'.Node? && s'.left == s.left && InOrder(s.right) == [s'.elem] + InOrder(s'.right)
    ensures InOrder(s') == InOrder(s.left) + InOrder(s.right)
  {
    Reassociated(InOrder(s.left), s'.elem, InOrder(s'.right));
  }

  /** Memory `m'` is `m` with `elm` put in the place of `out`. */
  ghost predicate Substituted<K>(m: Mem<K>, m': Mem<K>, out: Elem<K>, elm: Elem<K>)
    requires out in m
  {
    var up, l, r := m[out].parent, m[out].left, m[out].right;
    && m'.Keys == m.Keys - {out} + {elm}
    && m'[elm] == m[out]
    && (l != null && l in m && l in m' ==> m'[l] == m[l].(parent := elm))
    && (r != null && r in m && r in m' ==> m'[r] == m[r].(parent := elm))
    && (up != null && up in m && up in m' ==>
          m'[up] == if m[up].left == out then m[up].(left := elm) else m[up].(right := elm))
    && (forall n <- m :: n != out && n != l && n != r && n != up ==> m'[n] == m[n])
  }

  /** The two subtrees hang below the new node. */
  lemma SubstituteBelow<K>(m: Mem<K>, m': Mem<K>, s: Tree<K>, elm: Elem<K>, up: Elem?<K>)
    requires Distinct(s) && s.Node? && Nodes(s) <= m.Keys && Rep(m, s, up) && up !in Nodes(s)
    requires elm !in m && Substituted(m, m', s.elem, elm)
    ensures Rep(m', s.left, elm) && Rep(m', s.right, elm)
  {
    assert s.left.Node? ==> s.left.elem in Nodes(s.left);
    assert s.right.Node? ==> s.right.elem in Nodes(s.right);
    RepRehang(m, m', s.left, s.elem, elm);
    RepRehang(m, m', s.right, s.elem, elm);
  }

  lemma SubstituteHolds<K>(m: Mem<K>, m': Mem<K>, root: Elem?<K>, c: Ctx<K>, s: Tree<K>, elm: Elem<K>)
    requires Holds(m, root, c, s) && s.Node? && elm !in m && Substituted(m, m', s.elem, elm)
    ensures Holds(m', if c.Top? then elm else root, c, s.(elem := elm))
  {
    SubstituteBelow(m, m', s, elm, CtxPtr(c));
    SubstituteAbove(m, m', root, c, s, elm);
    SubstituteNodes(s, elm);
    RootPtrHole(c, s.elem, elm);
    hide CtxNodes, CtxDistinct, CtxRep, Distinct;
  }

  lemma SubstituteNodes<K>(s: Tree<K>, elm: Elem<K>)
    requires Distinct(s) && s.Node? && elm !in Nodes(s)
    ensures Distinct(s.(elem := elm)) && Nodes(s.(elem := elm)) == Nodes(s) - {s.elem} + {elm}
  {
  }

  /** The surroundings link to the new node. */
  lemma SubstituteAbove<K>(m: Mem<K>, m': Mem<K>, root: Elem?<K>, c: Ctx<K>, s: Tree<K>, elm: Elem<K>)
    requires Holds(m, root, c, s) && s.Node? && elm !in m
    requires Substituted(m, m', s.elem, elm)
    ensures CtxRep(m', c, elm)
  {
    assert s.left.Node? ==> s.left.elem in Nodes(s.left);
    assert s.right.Node? ==> s.right.elem in Nodes(s.right);
    assert c.OnRight? ==> Ptr(c.sib) != s.elem;
    CtxRepRelink(m, m', c, s.elem, elm);
  }

  lemma SubstituteOk<K>(m: Mem<K>, m': Mem<K>, root: Elem?<K>, c: Ctx<K>, s: Tree<K>, elm: Elem<K>)
    requires Spells(m, root, Plug(c, s)) && s.Node? && elm !in m
    requires s.elem in m && Substituted(m, m', s.elem, elm)
    ensures Spells(m', if c.Top? then elm else root, Plug(c, s.(elem := elm)))
  {
    SpellsPlug(m, root, c, s);
    SubstituteHolds(m, m', root, c, s, elm);
    SpellsPlug(m', if c.Top? then elm else root, c, s.(elem := elm));
  }

  lemma SubstituteAllowed<K>(m: Mem<K>, root: Elem?<K>, c: Ctx<K>, s: Tree<K>)
    requires Spells(m, root, Plug(c, s)) && s.Node?
    ensures s.elem in m && m[s.elem] == Cell(Ptr(s.left), Ptr(s.right), CtxPtr(c), s.red)
    ensures {m[s.elem].left, m[s.elem].right, m[s.elem].parent} - {null} <= m.Keys
    ensures s.elem !in {m[s.elem].left, m[s.elem].right, m[s.elem].parent}
    ensures s.left.Node? ==> Ptr(s.left) != Ptr(s.right) && Ptr(s.left) != CtxPtr(c)
    ensures s.right.Node? ==> Ptr(s.right) != CtxPtr(c)
  {
    SpellsPlug(m, root, c, s);
    assert s.left.Node? ==> s.left.elem in Nodes(s.left);
    assert s.right.Node? ==> s.right.elem in Nodes(s.right);
  }

  /** The successor's parent is the node to be replaced only if the walk stopped at once. */
  lemma HoleParent<K>(m: Mem<K>, root: Elem?<K>, c: Ctx<K>, s: Tree<K>, k: Ctx<K>, t: Tree<K>)
    requires s.Node? && Spells(m, root, Plug(HoleBelow(c, s.elem, s, k), t))
    ensures CtxPtr(HoleBelow(c, s.elem, s, k)) == s.elem <==> k.Top?
    ensures !k.Top? ==> CtxPtr(HoleBelow(c, s.elem, s, k)) == k.elem
    ensures s.elem in m && (t.Node? ==> s.elem != t.elem)
  {
    SpellsPlug(m, root, HoleBelow(c, s.elem, s, k), t);
    ComposeNodes(OnRight(c, s.elem, s.red, s.left), k);
  }

  lemma {:induction false} ComposeNodes<K>(o: Ctx<K>, k: Ctx<K>)
    ensures CtxNodes(Compose(o, k)) == CtxNodes(o) + CtxNodes(k)
    ensures CtxDistinct(Compose(o, k)) ==> CtxNodes(o) !! CtxNodes(k)
  {
    if !k.Top? { ComposeNodes(o, k.up); }
  }

  class Head<K(!new)> {
    const cmp: (K, K) -> int
    var root: Elem?<K>
    ghost var nodes: set<Elem<K>>
    ghost var tree: Tree<K>

    ghost predicate Valid()
      reads this, nodes
    {
      Lawful(cmp) && Spells(Snap(nodes), root, tree) && RedBlack(tree) && Sorted(cmp, InOrder(tree))
    }

    /** The nodes in key order. */
    ghost function Contents(): seq<Elem<K>>
      reads this
    {
      InOrder(tree)
    }

    /** RB_INIT, with the comparison that RB_GENERATE is given. */
    constructor (cmp: (K, K) -> int)
      requires Lawful(cmp)
      ensures Valid() && Contents() == [] && nodes == {} && this.cmp == cmp
    {
      this.cmp := cmp;
      root, nodes, tree := null, {}, Leaf;
    }

    method Paint(n: Elem<K>, red: bool)
      requires n in nodes
      modifies n`red
      ensures Snap(nodes) == Painted(old(Snap(nodes)), n, red)
    {
      n.red := red;
    }

    method PaintAt(n: Elem<K>, red: bool, ghost c: Ctx<K>, ghost s: Tree<K>)
      requires Spells(Snap(nodes), root, Plug(c, s)) && s.Node? && s.elem == n
      modifies nodes
      ensures Spells(Snap(nodes), root, Plug(c, s.(red := red)))
      ensures InOrder(Plug(c, s.(red := red))) == InOrder(Plug(c, s))
    {
      PaintOk(Snap(nodes), root, c, s, red);
      Paint(n, red);
    }

    /** RB_ROTATE_LEFT */
    method RotateLeft(elm: Elem<K>) returns (tmp: Elem<K>)
      requires CanRotateLeft(Snap(nodes), elm)
      modifies `root, nodes
      ensures RotatedLeft(old(Snap(nodes)), Snap(nodes), elm)
      ensures tmp == old(elm.right)
      ensures root == if old(elm.parent) == null then tmp else old(root)
    {
      tmp := elm.right;
      var inner := tmp.left;
      elm.right := inner;
      if inner != null {
        inner.parent := elm;
      }
      tmp.parent := elm.parent;
      var up := elm.parent;
      if up != null {
        if elm == up.left {
          up.left := tmp;
        } else {
          up.right := tmp;
        }
      } else {
        root := tmp;
      }
      tmp.left := elm;
      elm.parent := tmp;
    }

    method RotateLeftAt(elm: Elem<K>, ghost c: Ctx<K>, ghost s: Tree<K>) returns (tmp: Elem<K>)
      requires Spells(Snap(nodes), root, Plug(c, s)) && s.Node? && s.elem == elm && s.right.Node?
      modifies `root, nodes
      ensures Spells(Snap(nodes), root, Plug(c, LeftRotated(s))) && tmp == s.right.elem
      ensures InOrder(Plug(c, LeftRotated(s))) == InOrder(Plug(c, s))
    {
      ghost var m := Snap(nodes);
      RotateLeftAllowed(m, root, c, s);
      Links(m, root, c, s);
      tmp := RotateLeft(elm);
      RotateLeftOk(m, Snap(nodes), old(root), c, s);
    }

    /** RB_ROTATE_RIGHT */
    method RotateRight(elm: Elem<K>) returns (tmp: Elem<K>)
      requires CanRotateRight(Snap(nodes), elm)
      modifies `root, nodes
      ensures RotatedRight(old(Snap(nodes)), Snap(nodes), elm)
      ensures tmp == old(elm.left)
      ensures root == if old(elm.parent) == null then tmp else old(root)
    {
      tmp := elm.left;
      var inner := tmp.right;
      elm.left := inner;
      if inner != null {
        inner.parent := elm;
      }
      tmp.parent := elm.parent;
      var up := elm.parent;
      if up != null {
        if elm == up.left {
          up.left := tmp;
        } else {
          up.right := tmp;
        }
      } else {
        root := tmp;
      }
      tmp.right := elm;
      elm.parent := tmp;
    }

    method RotateRightAt(elm: Elem<K>, ghost c: Ctx<K>, ghost s: Tree<K>) returns (tmp: Elem<K>)
      requires Spells(Snap(nodes), root, Plug(c, s)) && s.Node? && s.elem == elm && s.left.Node?
      modifies `root, nodes
      ensures Spells(Snap(nodes), root, Plug(c, RightRotated(s))) && tmp == s.left.elem
      ensures InOrder(Plug(c, RightRotated(s))) == InOrder(Plug(c, s))
    {
      ghost var m := Snap(nodes);
      RotateRightAllowed(m, root, c, s);
      Links(m, root, c, s);
      tmp := RotateRight(elm);
      RotateRightOk(m, Snap(nodes), old(root), c, s);
    }

    /** One turn of RB_INSERT_COLOR's loop below a left parent (tree.h:407-422). */
    method InsertStepLeft(elm0: Elem<K>, parent0: Elem<K>, gparent: Elem<K>, ghost c: Ctx<K>, ghost s: Tree<K>)
      returns (elm: Elem<K>, ghost c': Ctx<K>, ghost s': Tree<K>)
      requires Spells(Snap(nodes), root, Plug(c, s)) && InsertInv(c, s) && s.elem == elm0
      requires CtxRed(c) && c.up.OnLeft? && c.elem == parent0 && c.up.elem == gparent
      modifies `root, nodes
      ensures Spells(Snap(nodes), root, Plug(c', s')) && InsertInv(c', s') && s'.elem == elm
      ensures InOrder(Plug(c', s')) == InOrder(Plug(c, s))
      ensures Depth(c') < Depth(c) || (!CtxRed(c') && Depth(c') <= Depth(c))
    {
      var parent := parent0;
      elm := elm0;
      ghost var m := Snap(nodes);
      Links(m, root, c, s);
      Links(m, root, c.up, Fill(c, s));
      Links(m, root, OnRight(c.up.up, c.up.elem, c.up.red, Fill(c, s)), c.up.sib);
      var tmp := gparent.right;
      if tmp != null && tmp.red {
        UncleLeftOk(m, root, c, s);
        UncleLeftInv(c, s);
        Paint(tmp, false);
        Paint(parent, false);
        Paint(gparent, true);
        elm := gparent;
        c', s' := c.up.up, UncleLeft(c, s);
        return;
      }
      c', s' := c, s;
      if parent.right == elm {
        InnerLeftInv(c, s);
        tmp := RotateLeftAt(parent, c.up, Fill(c, s));
        tmp := parent;
        parent := elm;
        elm := tmp;
        c', s' := OnLeft(c.up, s.elem, true, s.right), Node(c.sib, c.elem, true, s.left);
      }
      InsertRotateLeft(parent, gparent, c', s');
      c' := OnLeft(c.up.up, c'.elem, false, Node(c'.sib, c.up.elem, true, c.up.sib));
    }

    /** The closing rotation (tree.h:421-422). */
    method InsertRotateLeft(parent: Elem<K>, gparent: Elem<K>, ghost c: Ctx<K>, ghost s: Tree<K>)
      requires Spells(Snap(nodes), root, Plug(c, s)) && InsertInv(c, s)
      requires CtxRed(c) && c.OnLeft? && c.up.OnLeft? && c.elem == parent && c.up.elem == gparent
      requires !IsRed(c.up.sib)
      modifies `root, nodes
      ensures var c' := OnLeft(c.up.up, c.elem, false, Node(c.sib, c.up.elem, true, c.up.sib));
        Spells(Snap(nodes), root, Plug(c', s)) && InsertInv(c', s) && InOrder(Plug(c', s)) == InOrder(Plug(c, s))
    {
      ghost var m := Snap(nodes);
      ghost var g := Node(Node(s, c.elem, false, c.sib), c.up.elem, true, c.up.sib);
      OuterLeftOk(m, root, c, s);
      OuterLeftInv(c, s);
      Paint(parent, false);
      Paint(gparent, true);
      var _ := RotateRightAt(gparent, c.up.up, g);
    }


    /** One turn of RB_INSERT_COLOR's loop below a right parent (tree.h:423-439). */
    method InsertStepRight(elm0: Elem<K>, parent0: Elem<K>, gparent: Elem<K>, ghost c: Ctx<K>, ghost s: Tree<K>)
      returns (elm: Elem<K>, ghost c': Ctx<K>, ghost s': Tree<K>)
      requires Spells(Snap(nodes), root, Plug(c, s)) && InsertInv(c, s) && s.elem == elm0
      requires CtxRed(c) && c.up.OnRight? && c.elem == parent0 && c.up.elem == gparent
      modifies `root, nodes
      ensures Spells(Snap(nodes), root, Plug(c', s')) && InsertInv(c', s') && s'.elem == elm
      ensures InOrder(Plug(c', s')) == InOrder(Plug(c, s))
      ensures Depth(c') < Depth(c) || (!CtxRed(c') && Depth(c') <= Depth(c))
    {
      var parent := parent0;
      elm := elm0;
      ghost var m := Snap(nodes);
      Links(m, root, c, s);
      Links(m, root, c.up, Fill(c, s));
      Links(m, root, OnLeft(c.up.up, c.up.elem, c.up.red, Fill(c, s)), c.up.sib);
      var tmp := gparent.left;
      if tmp != null && tmp.red {
        UncleRightOk(m, root, c, s);
        UncleRightInv(c, s);
        Paint(tmp, false);
        Paint(parent, false);
        Paint(gparent, true);
        elm := gparent;
        c', s' := c.up.up, UncleRight(c, s);
        return;
      }
      c', s' := c, s;
      if parent.left == elm {
        InnerRightInv(c, s);
        tmp := RotateRightAt(parent, c.up, Fill(c, s));
        tmp := parent;
        parent := elm;
        elm := tmp;
        c', s' := OnRight(c.up, s.elem, true, s.left), Node(s.right, c.elem, true, c.sib);
      }
      InsertRotateRight(parent, gparent, c', s');
      c' := OnRight(c.up.up, c'.elem, false, Node(c.up.sib, c.up.elem, true, c'.sib));
    }

    /** The closing rotation (tree.h:437-438). */
    method InsertRotateRight(parent: Elem<K>, gparent: Elem<K>, ghost c: Ctx<K>, ghost s: Tree<K>)
      requires Spells(Snap(nodes), root, Plug(c, s)) && InsertInv(c, s)
      requires CtxRed(c) && c.OnRight? && c.up.OnRight? && c.elem == parent && c.up.elem == gparent
      requires !IsRed(c.up.sib)
      modifies `root, nodes
      ensures var c' := OnRight(c.up.up, c.elem, false, Node(c.up.sib, c.up.elem, true, c.sib));
        Spells(Snap(nodes), root, Plug(c', s)) && InsertInv(c', s) && InOrder(Plug(c', s)) == InOrder(Plug(c, s))
    {
      ghost var m := Snap(nodes);
      ghost var g := Node(c.up.sib, c.up.elem, true, Node(c.sib, c.elem, false, s));
      OuterRightOk(m, root, c, s);
      OuterRightInv(c, s);
      Paint(parent, false);
      Paint(gparent, true);
      var _ := RotateLeftAt(gparent, c.up.up, g);
    }

    /** RB_INSERT_COLOR (tree.h:400-442) */
    method InsertColor(elm0: Elem<K>, ghost c0: Ctx<K>, ghost s0: Tree<K>) returns (ghost t: Tree<K>)
      requires Spells(Snap(nodes), root, Plug(c0, s0)) && InsertInv(c0, s0) && s0.elem == elm0
      modifies `root, nodes
      ensures Spells(Snap(nodes), root, t) && RedBlack(t) && InOrder(t) == InOrder(Plug(c0, s0))
    {
      var elm := elm0;
      ghost var c, s := c0, s0;
      while true
        invariant Spells(Snap(nodes), root, Plug(c, s)) && InsertInv(c, s) && s.elem == elm
        invariant InOrder(Plug(c, s)) == InOrder(Plug(c0, s0))
        decreases if CtxRed(c) then 1 + Depth(c) else 0
      {
        Links(Snap(nodes), root, c, s);
        var parent := elm.parent;
        if parent == null || !parent.red {
          break;
        }
        Links(Snap(nodes), root, c.up, Fill(c, s));
        var gparent := parent.parent;
        if parent == gparent.left {
          elm, c, s := InsertStepLeft(elm, parent, gparent, c, s);
        } else {
          elm, c, s := InsertStepRight(elm, parent, gparent, c, s);
        }
      }
      Links(Snap(nodes), root, c, s);
      if c.Top? {
        PaintOk(Snap(nodes), root, Top, s, false);
        t := s.(red := false);
      } else {
        BalancedPlug(c, s, BlackHeight(s));
        t := Plug(c, s);
        PaintOk(Snap(nodes), root, Top, t, false);
      }
      Paint(root, false);
    }

    /** The walk that opens RB_INSERT (tree.h:594-604): an equal node, or the leaf where `k` belongs. */
    method Locate(k: K) returns (hit: Elem?<K>, parent: Elem?<K>, comp: int, ghost c: Ctx<K>)
      requires Valid()
      ensures hit != null ==> hit in Contents() && hit in nodes && cmp(k, hit.key) == 0
      ensures hit == null ==> tree == Plug(c, Leaf) && parent == CtxPtr(c)
      ensures hit == null && c.OnLeft? ==> comp < 0
      ensures hit == null && c.OnRight? ==> comp > 0
      ensures hit == null ==> Below(cmp, Contents(), |Before(c)|, k) && Above(cmp, Contents(), |Before(c)|, k)
    {
      ghost var m, order := Snap(nodes), Contents();
      var tmp := root;
      parent, comp, hit := null, 0, null;
      ghost var t := tree;
      c := Top;
      while tmp != null
        invariant Plug(c, t) == tree && tmp == Ptr(t) && parent == CtxPtr(c)
        invariant c.OnLeft? ==> comp < 0
        invariant c.OnRight? ==> comp > 0
        invariant Narrowed(cmp, order, c, t, k)
        decreases t
      {
        Links(m, root, c, t);
        Probe(cmp, order, c, t, k);
        parent := tmp;
        comp := cmp(k, parent.key);
        if comp < 0 {
          tmp := tmp.left;
          c, t := OnLeft(c, t.elem, t.red, t.right), t.left;
        } else if comp > 0 {
          tmp := tmp.right;
          c, t := OnRight(c, t.elem, t.red, t.left), t.right;
        } else {
          hit := tmp;
          return;
        }
      }
    }

    /** A node of the tree is the one that a walk for its own key finds. */
    lemma EqualsItself(elm: Elem<K>, hit: Elem?<K>, at: nat)
      requires Valid() && elm in nodes
      requires hit != null ==> hit in Contents() && cmp(elm.key, hit.key) == 0
      requires hit == null ==> Below(cmp, Contents(), at, elm.key) && Above(cmp, Contents(), at, elm.key)
      ensures hit == elm
    {
      hide Sorted, InOrder, Rep, RedBlack, Below, Above;
      NodesInOrder(tree);
      assert LawfulAt(cmp, elm.key, elm.key, elm.key);
      if hit == null {
        Absent(cmp, Contents(), at, elm.key);
      } else {
        SameKey(cmp, Contents(), elm, hit);
      }
    }

    /** RB_INSERT (tree.h:588-616). A node that is in the tree already is found and left where it is. */
    method Insert(elm: Elem<K>) returns (r: Elem?<K>)
      requires Valid()
      modifies this, nodes, elm
      ensures Valid()
      ensures elm in old(nodes) ==> r == elm
      ensures r != null ==>
        r in Contents() && cmp(elm.key, r.key) == 0 && unchanged(this) && unchanged(old(nodes)) && unchanged(elm)
      ensures r == null ==> nodes == old(nodes) + {elm} && InsertedInto(old(Contents()), elm, Contents())
      ensures r == null ==> forall x <- old(Contents()) :: cmp(elm.key, x.key) != 0
    {
      ghost var c;
      var parent, comp;
      r, parent, comp, c := Locate(elm.key);
      if elm in nodes {
        EqualsItself(elm, r, |Before(c)|);
      }
      if r != null {
        return;
      }
      Absent(cmp, Contents(), |Before(c)|, elm.key);
      Link(elm, parent, comp, c);
    }

    /** The second half of RB_INSERT: hang the new red node and restore the colours. */
    method Link(elm: Elem<K>, parent: Elem?<K>, comp: int, ghost c: Ctx<K>)
      requires Valid() && elm !in nodes && tree == Plug(c, Leaf) && parent == CtxPtr(c)
      requires (c.OnLeft? ==> comp < 0) && (c.OnRight? ==> comp > 0)
      requires Below(cmp, Contents(), |Before(c)|, elm.key) && Above(cmp, Contents(), |Before(c)|, elm.key)
      modifies this, nodes, elm
      ensures Valid() && nodes == old(nodes) + {elm} && InsertedInto(old(Contents()), elm, Contents())
    {
      hide Lawful, Sorted, Below, Above, Spells, InOrder, CtxBalanced, InsertedInto, Plug;
      ghost var m := Snap(nodes);
      Links(m, root, c, Leaf);
      LinkOrder(cmp, c, elm);
      PlugBalanced(c, Leaf);
      Hang(elm, parent, comp);
      LinkOk(m, Snap(nodes), old(root), c, elm);
      tree := InsertColor(elm, c, Node(Leaf, elm, true, Leaf));
    }

    /** RB_SET and the parent's link (tree.h:605-613). */
    method Hang(elm: Elem<K>, parent: Elem?<K>, comp: int)
      requires elm !in nodes && (parent != null ==> parent in nodes)
      modifies `root, `nodes, elm, nodes
      ensures nodes == old(nodes) + {elm} && root == if parent == null then elm else old(root)
      ensures var m, m' := old(Snap(nodes)), Snap(nodes);
        && m'[elm] == Cell(null, null, parent, true)
        && (parent != null ==> m'[parent] == if comp < 0 then m[parent].(left := elm) else m[parent].(right := elm))
        && forall n <- m :: n != parent ==> m'[n] == m[n]
    {
      elm.parent, elm.left, elm.right, elm.red := parent, null, null, true;
      if parent != null {
        if comp < 0 {
          parent.left := elm;
        } else {
          parent.right := elm;
        }
      } else {
        root := elm;
      }
      nodes := nodes + {elm};
    }

    /** The red sibling's case of RB_REMOVE_COLOR's loop (tree.h:452-456). */
    method RedSiblingStepLeft(parent: Elem<K>, tmp0: Elem<K>, ghost c: Ctx<K>, ghost t: Tree<K>) returns (tmp: Elem<K>)
      requires Spells(Snap(nodes), root, Plug(c, t)) && RemoveInv(c, t) && !IsRed(t)
      requires c.OnLeft? && c.elem == parent && IsRed(c.sib) && c.sib.elem == tmp0
      modifies `root, nodes
      ensures var c' := RedSiblingLeft(c);
        Spells(Snap(nodes), root, Plug(c', t)) && RemoveInv(c', t)
        && c'.sib.Node? && !c'.sib.red && c'.sib.elem == tmp && InOrder(Plug(c', t)) == InOrder(Plug(c, t))
    {
      RedSiblingLeftInv(c, t);
      PaintAt(tmp0, false, OnRight(c.up, c.elem, c.red, t), c.sib);
      PaintAt(parent, true, c.up, Node(t, c.elem, c.red, Blacken(c.sib)));
      var _ := RotateLeftAt(parent, c.up, Node(t, c.elem, true, Blacken(c.sib)));
      Links(Snap(nodes), root, RedSiblingLeft(c), t);
      tmp := parent.right;
    }

    /** The rotating case of RB_REMOVE_COLOR's loop (tree.h:464-481). */
    method NephewStepLeft(parent: Elem<K>, tmp0: Elem<K>, ghost c: Ctx<K>, ghost t: Tree<K>) returns (ghost t': Tree<K>)
      requires Spells(Snap(nodes), root, Plug(c, t)) && RemoveInv(c, t) && !IsRed(t)
      requires c.OnLeft? && c.elem == parent && c.sib.Node? && !c.sib.red && c.sib.elem == tmp0
      requires IsRed(c.sib.left) || IsRed(c.sib.right)
      modifies `root, nodes
      ensures Spells(Snap(nodes), root, t') && RedBlack(t') && InOrder(t') == InOrder(Plug(c, t))
    {
      var tmp := tmp0;
      ghost var w, cw := c.sib, OnRight(c.up, c.elem, c.red, t);
      Links(Snap(nodes), root, cw, w);
      Links(Snap(nodes), root, OnRight(cw, w.elem, w.red, w.left), w.right);
      if tmp.right == null || !tmp.right.red {
        NearNephewLeftInv(c, t);
        var oleft := tmp.left;
        if oleft != null {
          PaintAt(oleft, false, OnLeft(cw, w.elem, false, w.right), w.left);
        }
        PaintAt(tmp, true, cw, Node(Blacken(w.left), w.elem, false, w.right));
        oleft := RotateRightAt(tmp, cw, Node(Blacken(w.left), w.elem, true, w.right));
        w := Node(w.left.left, w.left.elem, false, Node(w.left.right, w.elem, true, w.right));
        Links(Snap(nodes), root, OnLeft(c.up, c.elem, c.red, w), t);
        tmp := parent.right;
      }
      t' := FarNephewStepLeft(parent, tmp, OnLeft(c.up, c.elem, c.red, w), t);
    }

    method FarNephewStepLeft(parent: Elem<K>, tmp: Elem<K>, ghost c: Ctx<K>, ghost t: Tree<K>)
      returns (ghost t': Tree<K>)
      requires Spells(Snap(nodes), root, Plug(c, t)) && RemoveInv(c, t) && !IsRed(t)
      requires c.OnLeft? && c.elem == parent && c.sib.Node? && !c.sib.red && c.sib.elem == tmp && IsRed(c.sib.right)
      modifies `root, nodes
      ensures Spells(Snap(nodes), root, t') && RedBlack(t') && InOrder(t') == InOrder(Plug(c, t))
    {
      ghost var w, cw := c.sib, OnRight(c.up, c.elem, c.red, t);
      FarNephewLeftInv(c, t);
      Links(Snap(nodes), root, c, t);
      PaintAt(tmp, parent.red, cw, w);
      PaintAt(parent, false, c.up, Node(t, c.elem, c.red, w.(red := c.red)));
      ghost var cf := OnRight(OnRight(c.up, c.elem, false, t), w.elem, c.red, w.left);
      Links(Snap(nodes), root, cf, w.right);
      if tmp.right != null {
        PaintAt(tmp.right, false, cf, w.right);
      }
      t' := Plug(c.up, FarNephewLeft(c, t));
      var _ := RotateLeftAt(parent, c.up, Node(t, c.elem, false, Node(w.left, w.elem, c.red, Blacken(w.right))));
    }

    /** One turn of RB_REMOVE_COLOR's loop when the short subtree is a left child (tree.h:450-481). */
    method RemoveStepLeft(parent0: Elem<K>, elm0: Elem?<K>, ghost c0: Ctx<K>, ghost t0: Tree<K>)
      returns (parent: Elem?<K>, elm: Elem?<K>, done: bool, ghost c: Ctx<K>, ghost t: Tree<K>)
      requires Spells(Snap(nodes), root, Plug(c0, t0)) && RemoveInv(c0, t0) && !IsRed(t0)
      requires c0.OnLeft? && c0.elem == parent0 && elm0 == Ptr(t0)
      modifies `root, nodes
      ensures Spells(Snap(nodes), root, Plug(c, t)) && InOrder(Plug(c, t)) == InOrder(Plug(c0, t0))
      ensures RemoveInv(c, t) && elm == Ptr(t) && parent == CtxPtr(c)
      ensures done ==> c.Top? && RedBlack(t)
      ensures !done ==> IsRed(t) || Depth(c) < Depth(c0)
    {
      c, t := c0, t0;
      Links(Snap(nodes), root, c, t);
      Links(Snap(nodes), root, OnRight(c.up, c.elem, c.red, t), c.sib);
      var tmp := parent0.right;
      if tmp.red {
        tmp := RedSiblingStepLeft(parent0, tmp, c, t);
        c := RedSiblingLeft(c);
      }
      var black := BlackNephewsLeft(tmp, c, t);
      if black {
        BlackNephewsLeftInv(c, t);
        PaintAt(tmp, true, OnRight(c.up, c.elem, c.red, t), c.sib);
        c, t := c.up, Node(t, c.elem, c.red, c.sib.(red := true));
        elm := parent0;
        Links(Snap(nodes), root, c, t);
        parent := elm.parent;
        done := false;
      } else {
        t := NephewStepLeft(parent0, tmp, c, t);
        c, elm, parent, done := Top, root, null, true;
      }
    }

    /** The test on the sibling's children (tree.h:457-460). */
    method BlackNephewsLeft(tmp: Elem<K>, ghost c: Ctx<K>, ghost t: Tree<K>) returns (black: bool)
      requires Spells(Snap(nodes), root, Plug(c, t)) && c.OnLeft? && c.sib.Node? && c.sib.elem == tmp
      ensures black <==> !IsRed(c.sib.left) && !IsRed(c.sib.right)
    {
      ghost var w, cw := c.sib, OnRight(c.up, c.elem, c.red, t);
      Links(Snap(nodes), root, cw, w);
      Links(Snap(nodes), root, OnLeft(cw, w.elem, w.red, w.right), w.left);
      Links(Snap(nodes), root, OnRight(cw, w.elem, w.red, w.left), w.right);
      black := (tmp.left == null || !tmp.left.red) && (tmp.right == null || !tmp.right.red);
    }


    /** The red sibling's case of RB_REMOVE_COLOR's loop (tree.h:484-488). */
    method RedSiblingStepRight(parent: Elem<K>, tmp0: Elem<K>, ghost c: Ctx<K>, ghost t: Tree<K>) returns (tmp: Elem<K>)
      requires Spells(Snap(nodes), root, Plug(c, t)) && RemoveInv(c, t) && !IsRed(t)
      requires c.OnRight? && c.elem == parent && IsRed(c.sib) && c.sib.elem == tmp0
      modifies `root, nodes
      ensures var c' := RedSiblingRight(c);
        Spells(Snap(nodes), root, Plug(c', t)) && RemoveInv(c', t)
        && c'.sib.Node? && !c'.sib.red && c'.sib.elem == tmp && InOrder(Plug(c', t)) == InOrder(Plug(c, t))
    {
      RedSiblingRightInv(c, t);
      PaintAt(tmp0, false, OnLeft(c.up, c.elem, c.red, t), c.sib);
      PaintAt(parent, true, c.up, Node(Blacken(c.sib), c.elem, c.red, t));
      var _ := RotateRightAt(parent, c.up, Node(Blacken(c.sib), c.elem, true, t));
      Links(Snap(nodes), root, RedSiblingRight(c), t);
      tmp := parent.left;
    }

    /** The rotating case of RB_REMOVE_COLOR's loop (tree.h:496-513). */
    method NephewStepRight(parent: Elem<K>, tmp0: Elem<K>, ghost c: Ctx<K>, ghost t: Tree<K>)
      returns (ghost t': Tree<K>)
      requires Spells(Snap(nodes), root, Plug(c, t)) && RemoveInv(c, t) && !IsRed(t)
      requires c.OnRight? && c.elem == parent && c.sib.Node? && !c.sib.red && c.sib.elem == tmp0
      requires IsRed(c.sib.right) || IsRed(c.sib.left)
      modifies `root, nodes
      ensures Spells(Snap(nodes), root, t') && RedBlack(t') && InOrder(t') == InOrder(Plug(c, t))
    {
      var tmp := tmp0;
      ghost var w, cw := c.sib, OnLeft(c.up, c.elem, c.red, t);
      Links(Snap(nodes), root, cw, w);
      Links(Snap(nodes), root, OnLeft(cw, w.elem, w.red, w.right), w.left);
      if tmp.left == null || !tmp.left.red {
        NearNephewRightInv(c, t);
        var oright := tmp.right;
        if oright != null {
          PaintAt(oright, false, OnRight(cw, w.elem, false, w.left), w.right);
        }
        PaintAt(tmp, true, cw, Node(w.left, w.elem, false, Blacken(w.right)));
        oright := RotateLeftAt(tmp, cw, Node(w.left, w.elem, true, Blacken(w.right)));
        w := Node(Node(w.left, w.elem, true, w.right.left), w.right.elem, false, w.right.right);
        Links(Snap(nodes), root, OnRight(c.up, c.elem, c.red, w), t);
        tmp := parent.left;
      }
      t' := FarNephewStepRight(parent, tmp, OnRight(c.up, c.elem, c.red, w), t);
    }

    method FarNephewStepRight(parent: Elem<K>, tmp: Elem<K>, ghost c: Ctx<K>, ghost t: Tree<K>)
      returns (ghost t': Tree<K>)
      requires Spells(Snap(nodes), root, Plug(c, t)) && RemoveInv(c, t) && !IsRed(t)
      requires c.OnRight? && c.elem == parent && c.sib.Node? && !c.sib.red && c.sib.elem == tmp && IsRed(c.sib.left)
      modifies `root, nodes
      ensures Spells(Snap(nodes), root, t') && RedBlack(t') && InOrder(t') == InOrder(Plug(c, t))
    {
      ghost var w, cw := c.sib, OnLeft(c.up, c.elem, c.red, t);
      FarNephewRightInv(c, t);
      Links(Snap(nodes), root, c, t);
      PaintAt(tmp, parent.red, cw, w);
      PaintAt(parent, false, c.up, Node(w.(red := c.red), c.elem, c.red, t));
      ghost var cf := OnLeft(OnLeft(c.up, c.elem, false, t), w.elem, c.red, w.right);
      Links(Snap(nodes), root, cf, w.left);
      if tmp.left != null {
        PaintAt(tmp.left, false, cf, w.left);
      }
      t' := Plug(c.up, FarNephewRight(c, t));
      var _ := RotateRightAt(parent, c.up, Node(Node(Blacken(w.left), w.elem, c.red, w.right), c.elem, false, t));
    }

    /** One turn of RB_REMOVE_COLOR's loop when the short subtree is a right child (tree.h:482-513). */
    method RemoveStepRight(parent0: Elem<K>, elm0: Elem?<K>, ghost c0: Ctx<K>, ghost t0: Tree<K>)
      returns (parent: Elem?<K>, elm: Elem?<K>, done: bool, ghost c: Ctx<K>, ghost t: Tree<K>)
      requires Spells(Snap(nodes), root, Plug(c0, t0)) && RemoveInv(c0, t0) && !IsRed(t0)
      requires c0.OnRight? && c0.elem == parent0 && elm0 == Ptr(t0)
      modifies `root, nodes
      ensures Spells(Snap(nodes), root, Plug(c, t)) && InOrder(Plug(c, t)) == InOrder(Plug(c0, t0))
      ensures RemoveInv(c, t) && elm == Ptr(t) && parent == CtxPtr(c)
      ensures done ==> c.Top? && RedBlack(t)
      ensures !done ==> IsRed(t) || Depth(c) < Depth(c0)
    {
      c, t := c0, t0;
      Links(Snap(nodes), root, c, t);
      Links(Snap(nodes), root, OnLeft(c.up, c.elem, c.red, t), c.sib);
      var tmp := parent0.left;
      if tmp.red {
        tmp := RedSiblingStepRight(parent0, tmp, c, t);
        c := RedSiblingRight(c);
      }
      var black := BlackNephewsRight(tmp, c, t);
      if black {
        BlackNephewsRightInv(c, t);
        PaintAt(tmp, true, OnLeft(c.up, c.elem, c.red, t), c.sib);
        c, t := c.up, Node(c.sib.(red := true), c.elem, c.red, t);
        elm := parent0;
        Links(Snap(nodes), root, c, t);
        parent := elm.parent;
        done := false;
      } else {
        t := NephewStepRight(parent0, tmp, c, t);
        c, elm, parent, done := Top, root, null, true;
      }
    }

    /** The test on the sibling's children (tree.h:489-492). */
    method BlackNephewsRight(tmp: Elem<K>, ghost c: Ctx<K>, ghost t: Tree<K>) returns (black: bool)
      requires Spells(Snap(nodes), root, Plug(c, t)) && c.OnRight? && c.sib.Node? && c.sib.elem == tmp
      ensures black <==> !IsRed(c.sib.right) && !IsRed(c.sib.left)
    {
      ghost var w, cw := c.sib, OnLeft(c.up, c.elem, c.red, t);
      Links(Snap(nodes), root, cw, w);
      Links(Snap(nodes), root, OnRight(cw, w.elem, w.red, w.left), w.right);
      Links(Snap(nodes), root, OnLeft(cw, w.elem, w.red, w.right), w.left);
      black := (tmp.right == null || !tmp.right.red) && (tmp.left == null || !tmp.left.red);
    }

    /** RB_REMOVE_COLOR (tree.h:444-521) */
    method RemoveColor(parent0: Elem?<K>, elm0: Elem?<K>, ghost c0: Ctx<K>, ghost t0: Tree<K>)
      returns (ghost t': Tree<K>)
      requires Spells(Snap(nodes), root, Plug(c0, t0)) && RemoveInv(c0, t0) && elm0 == Ptr(t0) && parent0 == CtxPtr(c0)
      modifies `root, nodes
      ensures Spells(Snap(nodes), root, t') && RedBlack(t') && InOrder(t') == InOrder(Plug(c0, t0))
    {
      hide Spells, InOrder, Plug, RedBlack, RemoveInv;
      var elm, parent, done := elm0, parent0, false;
      ghost var c, t := c0, t0;
      Links(Snap(nodes), root, c, t);
      while !done && (elm == null || !elm.red) && elm != root
        invariant Spells(Snap(nodes), root, Plug(c, t)) && InOrder(Plug(c, t)) == InOrder(Plug(c0, t0))
        invariant RemoveInv(c, t) && elm == Ptr(t) && parent == CtxPtr(c)
        invariant elm != null ==> elm in nodes && elm.red == t.red
        invariant done ==> c.Top? && RedBlack(t)
        invariant elm == root <==> c.Top?
        decreases !done, !IsRed(t), Depth(c)
      {
        Links(Snap(nodes), root, c, t);
        SideOf(Snap(nodes), root, c, t);
        if parent.left == elm {
          parent, elm, done, c, t := RemoveStepLeft(parent, elm, c, t);
        } else {
          parent, elm, done, c, t := RemoveStepRight(parent, elm, c, t);
        }
        Links(Snap(nodes), root, c, t);
      }
      RemoveEnd(c, t);
      t' := Plug(c, Blacken(t));
      if elm != null {
        PaintAt(elm, false, c, t);
      }
    }

    /** Cutting a node with at most one child out of the tree (tree.h:537-546, 569-580). */
    method Splice(elm: Elem<K>, child: Elem?<K>, parent: Elem?<K>)
      requires elm in nodes && elm.parent == parent && parent != elm && child != elm
      requires parent != null ==> parent in nodes && parent != child
      requires child != null ==> child in nodes
      modifies `root, `nodes, nodes
      ensures nodes == old(nodes) - {elm} && Spliced(old(Snap(nodes)), Snap(nodes), elm, child)
      ensures root == if parent == null then child else old(root)
      ensures unchanged(elm)
    {
      if child != null {
        child.parent := parent;
      }
      if parent != null {
        if parent.left == elm {
          parent.left := child;
        } else {
          parent.right := child;
        }
      } else {
        root := child;
      }
      nodes := nodes - {elm};
    }

    method SpliceAt(elm: Elem<K>, child: Elem?<K>, parent: Elem?<K>, ghost c: Ctx<K>, ghost s: Tree<K>)
      requires Spells(Snap(nodes), root, Plug(c, s)) && s.Node? && (s.left.Leaf? || s.right.Leaf?)
      requires s.elem == elm && child == Ptr(OnlyChild(s)) && parent == CtxPtr(c)
      modifies `root, `nodes, nodes
      ensures Spells(Snap(nodes), root, Plug(c, OnlyChild(s))) && nodes == old(nodes) - {elm}
      ensures unchanged(elm)
    {
      ghost var m := Snap(nodes);
      SpliceAllowed(m, root, c, s);
      Splice(elm, child, parent);
      SpliceOk(m, Snap(nodes), old(root), c, s);
    }

    /** `elm` takes over the fields and the neighbours of `out` (tree.h:549-560). */
    method Substitute(out: Elem<K>, elm: Elem<K>)
      requires out in nodes && elm !in nodes && out.left != null
      requires var up, l, r := out.parent, out.left, out.right;
        {l, r, up} - {null} <= nodes && out !in {l, r, up} && l != r && l != up && (r != null ==> r != up)
      modifies `root, `nodes, nodes, elm
      ensures nodes == old(nodes) - {out} + {elm} && Substituted(old(Snap(nodes)), Snap(nodes), out, elm)
      ensures root == if old(out.parent) == null then elm else old(root)
    {
      elm.left, elm.right, elm.parent, elm.red := out.left, out.right, out.parent, out.red;
      if out.parent != null {
        if out.parent.left == out {
          out.parent.left := elm;
        } else {
          out.parent.right := elm;
        }
      } else {
        root := elm;
      }
      out.left.parent := elm;
      if out.right != null {
        out.right.parent := elm;
      }
      nodes := nodes - {out} + {elm};
    }

    method SubstituteAt(out: Elem<K>, elm: Elem<K>, ghost c: Ctx<K>, ghost s: Tree<K>)
      requires Spells(Snap(nodes), root, Plug(c, s)) && s.Node? && s.elem == out && s.left.Node? && elm !in nodes
      modifies `root, `nodes, nodes, elm
      ensures Spells(Snap(nodes), root, Plug(c, s.(elem := elm))) && nodes == old(nodes) - {out} + {elm}
    {
      ghost var m := Snap(nodes);
      SubstituteAllowed(m, root, c, s);
      Substitute(out, elm);
      SubstituteOk(m, Snap(nodes), old(root), c, s, elm);
    }

    /** The in-order successor of a node with two children (tree.h:531-533). */
    method Successor(out: Elem<K>, ghost c: Ctx<K>, ghost s: Tree<K>)
      returns (elm: Elem<K>, ghost k: Ctx<K>, ghost t: Tree<K>)
      requires Spells(Snap(nodes), root, Plug(c, s)) && s.Node? && s.elem == out && s.right.Node?
      ensures LeftSpine(k) && Plug(k, t) == s.right && t.Node? && t.left.Leaf? && t.elem == elm
    {
      Links(Snap(nodes), root, c, s);
      elm := out.right;
      k, t := Top, s.right;
      while true
        invariant LeftSpine(k) && Plug(k, t) == s.right && t.Node? && t.elem == elm
        decreases t
      {
        PlugCompose(OnRight(c, s.elem, s.red, s.left), k, t);
        Links(Snap(nodes), root, HoleBelow(c, s.elem, s, k), t);
        var left := elm.left;
        if left == null {
          break;
        }
        k, t := OnLeft(k, t.elem, t.red, t.right), t.left;
        elm := left;
      }
    }

    /** RB_REMOVE (tree.h:520-585) */
    method Remove(elm: Elem<K>) returns (r: Elem<K>)
      requires Valid() && elm in nodes
      modifies this, nodes
      ensures Valid() && nodes == old(nodes) - {elm} && RemovedFrom(old(Contents()), elm, Contents()) && r == elm
    {
      ghost var c, s := FindHole(Top, tree, elm);
      Links(Snap(nodes), root, c, s);
      if elm.left == null {
        RemoveOuter(elm, elm.right, c, s);
      } else if elm.right == null {
        RemoveOuter(elm, elm.left, c, s);
      } else {
        RemoveInner(elm, c, s);
      }
      r := elm;
    }

    /** A node with at most one child (tree.h:525-528, 569-583). */
    method RemoveOuter(elm: Elem<K>, child: Elem?<K>, ghost c: Ctx<K>, ghost s: Tree<K>)
      requires Valid() && tree == Plug(c, s) && s.Node? && s.elem == elm && (s.left.Leaf? || s.right.Leaf?)
      requires child == Ptr(OnlyChild(s))
      modifies this, nodes
      ensures Valid() && nodes == old(nodes) - {elm} && RemovedFrom(old(Contents()), elm, Contents())
    {
      hide Lawful, Sorted, Rep, RemovedFrom, RemoveInv, InOrder, Plug, OnlyChild, RedBlack, Spells;
      Links(Snap(nodes), root, c, s);
      SpliceColours(c, s);
      SpliceOrder(c, s);
      SortedRemoved(cmp, Contents(), elm, InOrder(Plug(c, OnlyChild(s))));
      var parent, red := elm.parent, elm.red;
      SpliceAt(elm, child, parent, c, s);
      tree := Plug(c, OnlyChild(s));
      if !red {
        tree := RemoveColor(parent, child, c, OnlyChild(s));
      }
    }

    /** A node with two children (tree.h:529-568). */
    method RemoveInner(out: Elem<K>, ghost c: Ctx<K>, ghost s: Tree<K>)
      requires Valid() && tree == Plug(c, s) && s.Node? && s.elem == out && s.left.Node? && s.right.Node?
      modifies this, nodes
      ensures Valid() && nodes == old(nodes) - {out} && RemovedFrom(old(Contents()), out, Contents())
    {
      hide Lawful, Sorted, Spells, RemovedFrom, RemoveInv, InOrder;
      ghost var c', t';
      var parent, child, red;
      parent, child, red, c', t' := Detach(out, c, s);
      tree := Plug(c', t');
      if !red {
        tree := RemoveColor(parent, child, c', t');
      }
    }

    method Detach(out: Elem<K>, ghost c: Ctx<K>, ghost s: Tree<K>)
      returns (parent: Elem<K>, child: Elem?<K>, red: bool, ghost c': Ctx<K>, ghost t': Tree<K>)
      requires Valid() && tree == Plug(c, s) && s.Node? && s.elem == out && s.left.Node? && s.right.Node?
      modifies `root, `nodes, nodes
      ensures Spells(Snap(nodes), root, Plug(c', t')) && nodes == old(nodes) - {out}
      ensures parent == CtxPtr(c') && child == Ptr(t') && (if red then RedBlack(Plug(c', t')) else RemoveInv(c', t'))
      ensures RemovedFrom(Contents(), out, InOrder(Plug(c', t'))) && Sorted(cmp, InOrder(Plug(c', t')))
    {
      ghost var k, t;
      var elm;
      elm, k, t := Successor(out, c, s);
      c', t' := HoleBelow(c, elm, s, k), t.right;
      SuccessorColours(c, s, k, t);
      SuccessorOrder(c, s, k, t);
      SortedRemoved(cmp, Contents(), out, InOrder(Plug(c', t')));
      parent, child, red := Promote(out, elm, c, s, k, t);
    }

    /** The successor `elm` leaves its own place and takes over that of `out` (tree.h:534-560). */
    method Promote(out: Elem<K>, elm: Elem<K>, ghost c: Ctx<K>, ghost s: Tree<K>, ghost k: Ctx<K>, ghost t: Tree<K>)
      returns (parent: Elem<K>, child: Elem?<K>, red: bool)
      requires Spells(Snap(nodes), root, Plug(c, s)) && s.Node? && s.elem == out && s.left.Node?
      requires t.Node? && t.elem == elm && t.left.Leaf? && LeftSpine(k) && Plug(k, t) == s.right
      modifies `root, `nodes, nodes
      ensures Spells(Snap(nodes), root, Plug(HoleBelow(c, elm, s, k), t.right)) && nodes == old(nodes) - {out}
      ensures parent == CtxPtr(HoleBelow(c, elm, s, k)) && child == Ptr(t.right) && red == t.red
    {
      hide Spells, LeftSpine, InOrder, Plug;
      ghost var co := HoleBelow(c, out, s, k);
      SuccessorPlugs(c, out, s, k, t);
      Links(Snap(nodes), root, co, t);
      HoleParent(Snap(nodes), root, c, s, k, t);
      child, parent, red := elm.right, elm.parent, elm.red;
      SpliceAt(elm, child, parent, co, t);
      if elm.parent == out {
        parent := elm;
      }
      SuccessorPlugs(c, out, s, k, t.right);
      SubstituteAt(out, elm, c, Node(s.left, out, s.red, Plug(k, t.right)));
      SuccessorPlugs(c, elm, s, k, t.right);
    }

    /** A descent takes no more comparisons than the height bound allows. */
    lemma StepsBound(steps: nat)
      requires Valid() && steps <= Height(tree)
      ensures Pow2(steps) <= (|Contents()| + 1) * (|Contents()| + 1)
    {
      hide Lawful, Sorted, InOrder, Rep, Distinct, Nodes;
      HeightBound(tree);
      Pow2Mono(steps, Height(tree));
    }

    /** RB_FIND (tree.h:619-634); `steps` counts the comparisons. */
    method Find(k: K) returns (r: Elem?<K>, ghost steps: nat)
      requires Valid()
      ensures r != null ==> r in Contents() && r in nodes && cmp(k, r.key) == 0
      ensures r == null ==> forall x <- Contents() :: cmp(k, x.key) != 0
      ensures Pow2(steps) <= (|Contents()| + 1) * (|Contents()| + 1)
    {
      hide Lawful, Sorted, RedBlack, Rep, Distinct, Nodes, InOrder, Before, After, Below, Above;
      ghost var m, order := Snap(nodes), Contents();
      NarrowedTop(cmp, tree, k);
      r, steps := root, 0;
      ghost var c, t := Top, tree;
      while r != null
        invariant Plug(c, t) == tree && r == Ptr(t) && steps + Height(t) <= Height(tree)
        invariant Narrowed(cmp, order, c, t, k)
        decreases t
      {
        Links(m, root, c, t);
        Probe(cmp, order, c, t, k);
        steps := steps + 1;
        var comp := cmp(k, r.key);
        if comp < 0 {
          r := r.left;
          c, t := OnLeft(c, t.elem, t.red, t.right), t.left;
        } else if comp > 0 {
          r := r.right;
          c, t := OnRight(c, t.elem, t.red, t.left), t.right;
        } else {
          StepsBound(steps);
          return;
        }
      }
      StepsBound(steps);
      EmptyHole(c);
      Absent(cmp, order, |Before(c)|, k);
    }

    /** RB_NFIND (tree.h:637-656): the first node not below `k`. */
    method NFind(k: K) returns (r: Elem?<K>, ghost at: nat, ghost steps: nat)
      requires Valid()
      ensures at <= |Contents()| && Below(cmp, Contents(), at, k)
      ensures r == if at < |Contents()| then Contents()[at] else null
      ensures r != null ==> r in nodes && cmp(k, r.key) <= 0
      ensures Pow2(steps) <= (|Contents()| + 1) * (|Contents()| + 1)
    {
      hide Lawful, Sorted, RedBlack, Rep, Distinct, Nodes, InOrder, Before, After, Below, Above;
      ghost var m, order := Snap(nodes), Contents();
      NarrowedTop(cmp, tree, k);
      var tmp := root;
      r, steps := null, 0;
      ghost var c, t := Top, tree;
      while tmp != null
        invariant Plug(c, t) == tree && tmp == Ptr(t) && steps + Height(t) <= Height(tree)
        invariant Narrowed(cmp, order, c, t, k)
        invariant r == if After(c) == [] then null else After(c)[0]
        invariant r != null ==> r in nodes && cmp(k, r.key) <= 0
        decreases t
      {
        Links(m, root, c, t);
        Probe(cmp, order, c, t, k);
        ProbeSizes(c, t);
        steps := steps + 1;
        var comp := cmp(k, tmp.key);
        if comp < 0 {
          r := tmp;
          tmp := tmp.left;
          c, t := OnLeft(c, t.elem, t.red, t.right), t.left;
        } else if comp > 0 {
          tmp := tmp.right;
          c, t := OnRight(c, t.elem, t.red, t.left), t.right;
        } else {
          Position(c, t);
          StepsBound(steps);
          r, at := tmp, |Before(c)| + |InOrder(t.left)|;
          return;
        }
      }
      at := |Before(c)|;
      EmptyHole(c);
      StepsBound(steps);
    }

    /** RB_NEXT (tree.h:658-677): the in-order successor. */
    method Next(elm: Elem<K>) returns (r: Elem?<K>, ghost at: nat)
      requires Valid() && elm in nodes
      ensures at < |Contents()| && Contents()[at] == elm
      ensures forall i :: 0 <= i < |Contents()| && Contents()[i] == elm ==> i == at
      ensures r == if at + 1 < |Contents()| then Contents()[at + 1] else null
      ensures r != null ==> r in Contents() && r in nodes
    {
      hide Lawful, Sorted, RedBlack, InOrder, Rep;
      ghost var c, s := FindHole(Top, tree, elm);
      Position(c, s);
      at := |Before(c)| + |InOrder(s.left)|;
      OnlyPlace(cmp, Contents(), at);
      r := NextAt(elm, c, s);
      if r != null {
        InNodes(r);
      }
    }

    lemma InNodes(e: Elem<K>)
      requires Valid() && e in Contents()
      ensures e in nodes
    {
      NodesInOrder(tree);
    }

    method NextAt(elm0: Elem<K>, ghost c0: Ctx<K>, ghost s0: Tree<K>) returns (elm: Elem?<K>)
      requires Spells(Snap(nodes), root, Plug(c0, s0)) && s0.Node? && s0.elem == elm0
      ensures var order, at := InOrder(Plug(c0, s0)), |Before(c0)| + |InOrder(s0.left)| + 1;
        at <= |order| && elm == if at < |order| then order[at] else null
    {
      hide Spells, Rep;
      Position(c0, s0);
      Links(Snap(nodes), root, c0, s0);
      if elm0.right != null {
        elm := NextDown(elm0.right, OnRight(c0, s0.elem, s0.red, s0.left), s0.right);
      } else {
        elm := NextUp(elm0, c0, s0);
      }
    }

    /** RB_NEXT with a right child: the leftmost node of that subtree. */
    method NextDown(elm0: Elem<K>, ghost c0: Ctx<K>, ghost s0: Tree<K>) returns (elm: Elem<K>)
      requires Spells(Snap(nodes), root, Plug(c0, s0)) && s0.Node? && s0.elem == elm0
      ensures var order := InOrder(Plug(c0, s0));
        |Before(c0)| < |order| && elm == order[|Before(c0)|]
    {
      hide Spells, Rep, InOrder;
      elm := elm0;
      ghost var m, c, s := Snap(nodes), c0, s0;
      Links(m, root, c, s);
      while elm.left != null
        invariant Plug(c, s) == Plug(c0, s0) && s.Node? && elm == s.elem && Before(c) == Before(c0)
        invariant elm in nodes && m[elm].left == Ptr(s.left)
        decreases s
      {
        elm := elm.left;
        c, s := OnLeft(c, s.elem, s.red, s.right), s.left;
        Links(m, root, c, s);
      }
      NothingInLeaf(s.left);
      Position(c, s);
    }

    lemma NothingInLeaf(s: Tree<K>)
      requires s.Leaf?
      ensures InOrder(s) == []
    {
    }

    /** RB_NEXT without a right child: the nearest ancestor on the right. */
    method NextUp(elm0: Elem<K>, ghost c0: Ctx<K>, ghost s0: Tree<K>) returns (elm: Elem?<K>)
      requires Spells(Snap(nodes), root, Plug(c0, s0)) && s0.Node? && s0.elem == elm0
      ensures var order, at := InOrder(Plug(c0, s0)), |Before(c0)| + |InOrder(s0)|;
        at <= |order| && elm == if at < |order| then order[at] else null
    {
      ghost var m, c, s := Snap(nodes), c0, s0;
      elm := elm0;
      Links(m, root, c, s);
      if elm.parent != null && elm == elm.parent.left {
        elm := elm.parent;
      } else {
        while elm.parent != null && elm == elm.parent.right
          invariant Plug(c, s) == Plug(c0, s0) && s.Node? && elm == s.elem
          invariant |Before(c)| + |InOrder(s)| == |Before(c0)| + |InOrder(s0)|
          invariant elm in nodes && elm.parent == CtxPtr(c)
          invariant elm.parent != null ==> elm.parent in nodes && (c.OnRight? <==> elm == elm.parent.right)
          decreases Depth(c)
        {
          elm := elm.parent;
          c, s := c.up, Fill(c, s);
          Links(m, root, c, s);
        }
        elm := elm.parent;
      }
      InOrderPlug(c, s);
      if !c.Top? { Position(c.up, Fill(c, s)); }
    }

    /** RB_PREV (tree.h:680-699): the in-order predecessor. */
    method Prev(elm: Elem<K>) returns (r: Elem?<K>, ghost at: nat)
      requires Valid() && elm in nodes
      ensures at < |Contents()| && Contents()[at] == elm
      ensures forall i :: 0 <= i < |Contents()| && Contents()[i] == elm ==> i == at
      ensures r == if at >= 1 then Contents()[at - 1] else null
      ensures r != null ==> r in Contents() && r in nodes
    {
      hide Lawful, Sorted, RedBlack, InOrder, Rep;
      ghost var c, s := FindHole(Top, tree, elm);
      Position(c, s);
      at := |Before(c)| + |InOrder(s.left)|;
      OnlyPlace(cmp, Contents(), at);
      r := PrevAt(elm, c, s);
      if r != null {
        InNodes(r);
      }
    }

    method PrevAt(elm0: Elem<K>, ghost c0: Ctx<K>, ghost s0: Tree<K>) returns (elm: Elem?<K>)
      requires Spells(Snap(nodes), root, Plug(c0, s0)) && s0.Node? && s0.elem == elm0
      ensures var order, at := InOrder(Plug(c0, s0)), |Before(c0)| + |InOrder(s0.left)|;
        at < |order| && elm == if at >= 1 then order[at - 1] else null
    {
      hide Spells, Rep;
      Position(c0, s0);
      Links(Snap(nodes), root, c0, s0);
      if elm0.left != null {
        elm := PrevDown(elm0.left, OnLeft(c0, s0.elem, s0.red, s0.right), s0.left);
      } else {
        elm := PrevUp(elm0, c0, s0);
      }
    }

    /** RB_PREV with a left child: the rightmost node of that subtree. */
    method PrevDown(elm0: Elem<K>, ghost c0: Ctx<K>, ghost s0: Tree<K>) returns (elm: Elem<K>)
      requires Spells(Snap(nodes), root, Plug(c0, s0)) && s0.Node? && s0.elem == elm0
      ensures var order, n := InOrder(Plug(c0, s0)), |Before(c0)| + |InOrder(s0)|;
        1 <= n <= |order| && elm == order[n - 1]
    {
      hide Spells, Rep, InOrder, Before;
      elm := elm0;
      ghost var m, c, s := Snap(nodes), c0, s0;
      Links(m, root, c, s);
      while elm.right != null
        invariant Plug(c, s) == Plug(c0, s0) && s.Node? && elm == s.elem
        invariant |Before(c)| + |InOrder(s)| == |Before(c0)| + |InOrder(s0)|
        invariant elm in nodes && m[elm].right == Ptr(s.right)
        decreases s
      {
        elm := elm.right;
        ProbeSizes(c, s);
        c, s := OnRight(c, s.elem, s.red, s.left), s.right;
        Links(m, root, c, s);
      }
      NothingInLeaf(s.right);
      ProbeSizes(c, s);
      Position(c, s);
    }

    /** RB_PREV without a left child: the nearest ancestor on the left. */
    method PrevUp(elm0: Elem<K>, ghost c0: Ctx<K>, ghost s0: Tree<K>) returns (elm: Elem?<K>)
      requires Spells(Snap(nodes), root, Plug(c0, s0)) && s0.Node? && s0.elem == elm0
      ensures var order, at := InOrder(Plug(c0, s0)), |Before(c0)|;
        at < |order| && elm == if at >= 1 then order[at - 1] else null
    {
      ghost var m, c, s := Snap(nodes), c0, s0;
      elm := elm0;
      Links(m, root, c, s);
      if elm.parent != null && elm == elm.parent.right {
        elm := elm.parent;
      } else {
        while elm.parent != null && elm == elm.parent.left
          invariant Plug(c, s) == Plug(c0, s0) && s.Node? && elm == s.elem
          invariant |Before(c)| == |Before(c0)|
          invariant elm in nodes && elm.parent == CtxPtr(c)
          invariant elm.parent != null ==> elm.parent in nodes && (c.OnLeft? <==> elm == elm.parent.left)
          decreases Depth(c)
        {
          elm := elm.parent;
          c, s := c.up, Fill(c, s);
          Links(m, root, c, s);
        }
        elm := elm.parent;
      }
      Position(c0, s0);
      if !c.Top? { Position(c.up, Fill(c, s)); }
    }

    /** RB_PREV undoes RB_NEXT, except at the last node. */
    method NextPrev(elm: Elem<K>) returns (back: Elem?<K>)
      requires Valid() && elm in nodes
      ensures Contents() != [] && back == if elm == Contents()[|Contents()| - 1] then null else elm
    {
      ghost var at, at';
      back, at := Next(elm);
      if back != null {
        back, at' := Prev(back);
        assert Contents()[at + 1] == Contents()[at'];
      }
    }

    /** RB_NEXT undoes RB_PREV, except at the first node. */
    method PrevNext(elm: Elem<K>) returns (back: Elem?<K>)
      requires Valid() && elm in nodes
      ensures Contents() != [] && back == if elm == Contents()[0] then null else elm
    {
      ghost var at, at';
      back, at := Prev(elm);
      if back != null {
        back, at' := Next(back);
        assert Contents()[at - 1] == Contents()[at'];
      }
    }

    /** RB_MINMAX (tree.h:701-714) */
    method MinMax(val: int) returns (parent: Elem?<K>)
      requires Valid()
      ensures var s := Contents();
        parent == if s == [] then null else if val < 0 then s[0] else s[|s| - 1]
    {
      ghost var m := Snap(nodes);
      var tmp := root;
      parent := null;
      ghost var c, t := Top, tree;
      while tmp != null
        invariant Plug(c, t) == tree && tmp == Ptr(t) && parent == CtxPtr(c)
        invariant (val < 0 ==> LeftSpine(c)) && (val >= 0 ==> RightSpine(c))
        decreases t
      {
        Links(m, root, c, t);
        parent := tmp;
        if val < 0 {
          tmp := tmp.left;
          c, t := OnLeft(c, t.elem, t.red, t.right), t.left;
        } else {
          tmp := tmp.right;
          c, t := OnRight(c, t.elem, t.red, t.left), t.right;
        }
      }
      InOrderPlug(c, t);
      if !c.Top? {
        if val < 0 { LeftSpineBefore(c.up); } else { RightSpineAfter(c.up); }
        Position(c.up, Fill(c, t));
      }
    }

  }
}
