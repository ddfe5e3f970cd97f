/** The value-level model behind the red-black trees of src/tree.h: coloured trees
    whose nodes are node objects, contexts ("a tree with a hole"), the balance rules,
    and the relation between a tree and the link fields that spell it out in memory. */
module RbModel {
  import opened Powers
  import opened TreeOrder

  datatype Tree<K> = Leaf | Node(left: Tree<K>, elem: Elem<K>, red: bool, right: Tree<K>)

  /** A tree with a hole. `OnLeft` says that the hole is inside the left child. */
  datatype Ctx<K> =
    | Top
    | OnLeft(up: Ctx<K>, elem: Elem<K>, red: bool, sib: Tree<K>)
    | OnRight(up: Ctx<K>, elem: Elem<K>, red: bool, sib: Tree<K>)

  ghost function Plug<K>(c: Ctx<K>, s: Tree<K>): Tree<K> {
    match c
    case Top => s
    case OnLeft(up, n, red, sib) => Plug(up, Node(s, n, red, sib))
    case OnRight(up, n, red, sib) => Plug(up, Node(sib, n, red, s))
  }

  ghost function Depth<K>(c: Ctx<K>): nat {
    if c.Top? then 0 else 1 + Depth(c.up)
  }

  ghost function InOrder<K>(t: Tree<K>): seq<Elem<K>> {
    match t
    case Leaf => []
    case Node(l, n, _, r) => InOrder(l) + [n] + InOrder(r)
  }

  /** The part of the in-order sequence that precedes the hole. */
  ghost function Before<K>(c: Ctx<K>): seq<Elem<K>> {
    match c
    case Top => []
    case OnLeft(up, _, _, _) => Before(up)
    case OnRight(up, n, _, sib) => Before(up) + InOrder(sib) + [n]
  }

  /** The part of the in-order sequence that follows the hole. */
  ghost function After<K>(c: Ctx<K>): seq<Elem<K>> {
    match c
    case Top => []
    case OnLeft(up, n, _, sib) => [n] + InOrder(sib) + After(up)
    case OnRight(up, _, _, _) => After(up)
  }

  lemma IntoAfter<K>(a: seq<Elem<K>>, s: seq<Elem<K>>, n: Elem<K>, sib: seq<Elem<K>>, b: seq<Elem<K>>)
    ensures a + (s + [n] + sib) + b == a + s + ([n] + sib + b)
  {
  }

  lemma IntoBefore<K>(a: seq<Elem<K>>, sib: seq<Elem<K>>, n: Elem<K>, s: seq<Elem<K>>, b: seq<Elem<K>>)
    ensures a + (sib + [n] + s) + b == (a + sib + [n]) + s + b
  {
  }

  lemma {:induction false} InOrderPlug<K>(c: Ctx<K>, s: Tree<K>)
    ensures InOrder(Plug(c, s)) == Before(c) + InOrder(s) + After(c)
  {
    match c
    case Top =>
    case OnLeft(up, n, red, sib) =>
      InOrderPlug(up, Node(s, n, red, sib));
      IntoAfter(Before(up), InOrder(s), n, InOrder(sib), After(up));
    case OnRight(up, n, red, sib) =>
      InOrderPlug(up, Node(sib, n, red, s));
      IntoBefore(Before(up), InOrder(sib), n, InOrder(s), After(up));
  }

  // ---------- nodes of a tree, each occurring once ----------

  ghost function Nodes<K>(t: Tree<K>): set<Elem<K>> {
    match t
    case Leaf => {}
    case Node(l, n, _, r) => Nodes(l) + {n} + Nodes(r)
  }

  ghost predicate Distinct<K>(t: Tree<K>) {
    match t
    case Leaf => true
    case Node(l, n, _, r) =>
      Distinct(l) && Distinct(r) && n !in Nodes(l) && n !in Nodes(r) && Nodes(l) !! Nodes(r)
  }

  ghost function CtxNodes<K>(c: Ctx<K>): set<Elem<K>> {
    if c.Top? then {} else CtxNodes(c.up) + {c.elem} + Nodes(c.sib)
  }

  ghost predicate CtxDistinct<K>(c: Ctx<K>) {
    c.Top? ||
    (CtxDistinct(c.up) && Distinct(c.sib) && c.elem !in CtxNodes(c.up) && c.elem !in Nodes(c.sib)
     && CtxNodes(c.up) !! Nodes(c.sib))
  }

  lemma {:induction false} NodesPlug<K>(c: Ctx<K>, s: Tree<K>)
    ensures Nodes(Plug(c, s)) == CtxNodes(c) + Nodes(s)
    ensures Distinct(Plug(c, s)) <==> CtxDistinct(c) && Distinct(s) && CtxNodes(c) !! Nodes(s)
  {
    match c
    case Top =>
    case OnLeft(up, n, red, sib) => NodesPlug(up, Node(s, n, red, sib));
    case OnRight(up, n, red, sib) => NodesPlug(up, Node(sib, n, red, s));
  }

  lemma {:induction false} NodesInOrder<K>(t: Tree<K>)
    ensures forall n :: n in Nodes(t) <==> n in InOrder(t)
  {
    if t.Node? {
      NodesInOrder(t.left);
      NodesInOrder(t.right);
    }
  }

  // ---------- the red-black rules (tree.h:45-54) ----------

  ghost predicate IsRed<K>(t: Tree<K>) {
    t.Node? && t.red
  }

  ghost predicate CtxRed<K>(c: Ctx<K>) {
    !c.Top? && c.red
  }

  /** Black nodes on the leftmost path; in a `Balanced` tree, on every path. */
  ghost function BlackHeight<K>(t: Tree<K>): nat {
    match t
    case Leaf => 0
    case Node(l, _, red, _) => BlackHeight(l) + if red then 0 else 1
  }

  ghost predicate Balanced<K>(t: Tree<K>) {
    match t
    case Leaf => true
    case Node(l, _, red, r) =>
      Balanced(l) && Balanced(r) && BlackHeight(l) == BlackHeight(r)
      && (red ==> !IsRed(l) && !IsRed(r))
  }

  /** `Balanced`, except that the root may be red and have red children. */
  ghost predicate KidsBalanced<K>(t: Tree<K>) {
    match t
    case Leaf => true
    case Node(l, _, _, r) => Balanced(l) && Balanced(r) && BlackHeight(l) == BlackHeight(r)
  }

  ghost function Blacken<K>(t: Tree<K>): Tree<K> {
    if t.Node? then t.(red := false) else t
  }

  ghost predicate RedBlack<K>(t: Tree<K>) {
    Balanced(t) && !IsRed(t)
  }

  /** Everything around a hole obeys the rules, if the hole is filled with black height `h`
      and with a root that may be red only under a black parent. */
  ghost predicate CtxBalanced<K>(c: Ctx<K>, h: nat) {
    c.Top? ||
    (Balanced(c.sib) && BlackHeight(c.sib) == h
     && (c.red ==> !IsRed(c.sib) && !c.up.Top? && !c.up.red)
     && CtxBalanced(c.up, if c.red then h else h + 1))
  }

  lemma {:induction false} BalancedPlug<K>(c: Ctx<K>, s: Tree<K>, h: nat)
    requires CtxBalanced(c, h) && Balanced(s) && BlackHeight(s) == h
    requires IsRed(s) ==> !c.Top? && !c.red
    ensures RedBlack(Plug(c, s))
  {
    match c
    case Top =>
    case OnLeft(up, n, red, sib) => BalancedPlug(up, Node(s, n, red, sib), if red then h else h + 1);
    case OnRight(up, n, red, sib) => BalancedPlug(up, Node(sib, n, red, s), if red then h else h + 1);
  }

  /** The converse: any place in a red-black tree is a well-balanced hole. */
  lemma {:induction false} PlugBalanced<K>(c: Ctx<K>, s: Tree<K>)
    requires RedBlack(Plug(c, s))
    ensures Balanced(s) && CtxBalanced(c, BlackHeight(s))
    ensures IsRed(s) ==> !c.Top? && !c.red
  {
    match c
    case Top =>
    case OnLeft(up, n, red, sib) => PlugBalanced(up, Node(s, n, red, sib));
    case OnRight(up, n, red, sib) => PlugBalanced(up, Node(sib, n, red, s));
  }

  // ---------- height ----------

  ghost function Height<K>(t: Tree<K>): nat {
    match t
    case Leaf => 0
    case Node(l, _, _, r) => 1 + if Height(l) < Height(r) then Height(r) else Height(l)
  }

  lemma {:induction false} HeightByBlackHeight<K>(t: Tree<K>)
    requires Balanced(t)
    ensures Height(t) <= 2 * BlackHeight(t) + if IsRed(t) then 1 else 0
    ensures Pow2(BlackHeight(t)) <= |InOrder(t)| + 1
  {
    if t.Node? {
      HeightByBlackHeight(t.left);
      HeightByBlackHeight(t.right);
    }
  }

  /** tree.h:54: the height is at most 2*lg(n+1), i.e. 2^height <= (n+1)^2. */
  lemma {:induction false} HeightBound<K>(t: Tree<K>)
    requires RedBlack(t)
    ensures Pow2(Height(t)) <= (|InOrder(t)| + 1) * (|InOrder(t)| + 1)
  {
    HeightByBlackHeight(t);
    var b, n := BlackHeight(t), |InOrder(t)| + 1;
    Pow2Mono(Height(t), b + b);
    Pow2Sum(b, b);
    SquareMono(Pow2(b), n);
  }

  // ---------- memory: the link fields of a set of nodes ----------

  datatype Cell<K> = Cell(left: Elem?<K>, right: Elem?<K>, parent: Elem?<K>, red: bool)
  type Mem<K> = map<Elem<K>, Cell<K>>

  ghost function Snap<K>(nodes: set<Elem<K>>): (m: Mem<K>)
    reads nodes
    ensures m.Keys == nodes
    ensures forall n <- nodes :: m[n] == Cell(n.left, n.right, n.parent, n.red)
  {
    map n | n in nodes :: Cell(n.left, n.right, n.parent, n.red)
  }

  ghost function Ptr<K>(t: Tree<K>): Elem?<K> {
    if t.Leaf? then null else t.elem
  }

  ghost function CtxPtr<K>(c: Ctx<K>): Elem?<K> {
    if c.Top? then null else c.elem
  }

  /** The cells in `m` spell out `t`, hung below `parent`. */
  ghost predicate Rep<K>(m: Mem<K>, t: Tree<K>, parent: Elem?<K>) {
    match t
    case Leaf => true
    case Node(l, n, red, r) =>
      n in m && m[n] == Cell(Ptr(l), Ptr(r), parent, red) && Rep(m, l, n) && Rep(m, r, n)
  }

  /** The cells in `m` spell out `c`, with `hole` linked at the hole. */
  ghost predicate CtxRep<K>(m: Mem<K>, c: Ctx<K>, hole: Elem?<K>) {
    match c
    case Top => true
    case OnLeft(up, n, red, sib) =>
      n in m && m[n] == Cell(hole, Ptr(sib), CtxPtr(up), red) && Rep(m, sib, n) && CtxRep(m, up, n)
    case OnRight(up, n, red, sib) =>
      n in m && m[n] == Cell(Ptr(sib), hole, CtxPtr(up), red) && Rep(m, sib, n) && CtxRep(m, up, n)
  }

  ghost function RootPtr<K>(c: Ctx<K>, hole: Elem?<K>): Elem?<K> {
    if c.Top? then hole else RootPtr(c.up, c.elem)
  }

  lemma {:induction false} RepPlug<K>(m: Mem<K>, c: Ctx<K>, s: Tree<K>)
    ensures Rep(m, Plug(c, s), null) <==> CtxRep(m, c, Ptr(s)) && Rep(m, s, CtxPtr(c))
    ensures Ptr(Plug(c, s)) == RootPtr(c, Ptr(s))
  {
    match c
    case Top =>
    case OnLeft(up, n, red, sib) => RepPlug(m, up, Node(s, n, red, sib));
    case OnRight(up, n, red, sib) => RepPlug(m, up, Node(sib, n, red, s));
  }

  lemma {:induction false} RepFrame<K>(m: Mem<K>, m': Mem<K>, t: Tree<K>, parent: Elem?<K>)
    requires Rep(m, t, parent)
    requires forall n <- Nodes(t) | n in m :: n in m' && m'[n] == m[n]
    ensures Rep(m', t, parent)
  {
    if t.Node? {
      RepFrame(m, m', t.left, t.elem);
      RepFrame(m, m', t.right, t.elem);
    }
  }

  lemma {:induction false} CtxRepFrame<K>(m: Mem<K>, m': Mem<K>, c: Ctx<K>, hole: Elem?<K>)
    requires CtxRep(m, c, hole)
    requires forall n <- CtxNodes(c) | n in m :: n in m' && m'[n] == m[n]
    ensures CtxRep(m', c, hole)
  {
    if !c.Top? {
      RepFrame(m, m', c.sib, c.elem);
      CtxRepFrame(m, m', c.up, c.elem);
    }
  }

  /** Re-hanging a tree changes only its root's parent field. */
  lemma RepRehang<K>(m: Mem<K>, m': Mem<K>, t: Tree<K>, old_parent: Elem?<K>, parent: Elem?<K>)
    requires Rep(m, t, old_parent) && Distinct(t)
    requires t.Node? ==> t.elem in m' && m'[t.elem] == m[t.elem].(parent := parent)
    requires forall n <- Nodes(t) | n in m && n != Ptr(t) :: n in m' && m'[n] == m[n]
    ensures Rep(m', t, parent)
  {
    if t.Node? {
      RepFrame(m, m', t.left, t.elem);
      RepFrame(m, m', t.right, t.elem);
    }
  }

  /** Linking another node at the hole changes only one child field. */
  ghost function Relinked<K>(c: Ctx<K>, cell: Cell<K>, hole: Elem?<K>): Cell<K> {
    match c
    case Top => cell
    case OnLeft(_, _, _, _) => cell.(left := hole)
    case OnRight(_, _, _, _) => cell.(right := hole)
  }

  lemma CtxRepRelink<K>(m: Mem<K>, m': Mem<K>, c: Ctx<K>, old_hole: Elem?<K>, hole: Elem?<K>)
    requires CtxRep(m, c, old_hole) && CtxDistinct(c)
    requires !c.Top? ==> c.elem in m' && m'[c.elem] == Relinked(c, m[c.elem], hole)
    requires forall n <- CtxNodes(c) | n in m && n != CtxPtr(c) :: n in m' && m'[n] == m[n]
    ensures CtxRep(m', c, hole)
  {
    if !c.Top? {
      RepFrame(m, m', c.sib, c.elem);
      CtxRepFrame(m, m', c.up, c.elem);
    }
  }
}
