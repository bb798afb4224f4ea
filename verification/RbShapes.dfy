/**
 Values that describe the shape of a red-black tree: a tree of coloured nodes, and the
 context around a subtree (what is left of the tree when that subtree is cut out).

 The two sides of a node are named by a value, so that a statement about one side is also the
 statement about its mirror image; the original writes such pairs with macros over `left`/`right`.
 */
module RbShapes {

  datatype Side = Lft | Rgt

  function Other(s: Side): Side {
    if s == Lft then Rgt else Lft
  }

  datatype Tree<N> = Leaf | Node(red: bool, left: Tree<N>, node: N, right: Tree<N>)

  /** A path from a hole up to the top; each frame keeps the node passed and its other subtree. */
  datatype Context<N> = Top | Frame(side: Side, red: bool, node: N, sib: Tree<N>, up: Context<N>)

  /** The tree over `n` with `a` on side `s` and `b` on the other side. */
  function Mk<N>(s: Side, red: bool, a: Tree<N>, n: N, b: Tree<N>): Tree<N> {
    if s == Lft then Node(red, a, n, b) else Node(red, b, n, a)
  }

  lemma {:induction false} MkFlip<N>(s: Side, red: bool, a: Tree<N>, n: N, b: Tree<N>)
    ensures Mk(Other(s), red, b, n, a) == Mk(s, red, a, n, b)
  {
  }

  function Depth<N>(c: Context<N>): nat {
    if c.Top? then 0 else 1 + Depth(c.up)
  }

  function Kid<N>(s: Side, t: Tree<N>): Tree<N>
    requires t.Node?
  {
    if s == Lft then t.left else t.right
  }

  function Plug<N>(c: Context<N>, t: Tree<N>): Tree<N>
    decreases c
  {
    match c
    case Top => t
    case Frame(s, red, n, sib, up) => Plug(up, Mk(s, red, t, n, sib))
  }

  // ---------- in-order sequences ----------

  function Inorder<N>(t: Tree<N>): seq<N> {
    match t
    case Leaf => []
    case Node(_, l, n, r) => Inorder(l) + [n] + Inorder(r)
  }

  /** What precedes the hole in order. */
  function Before<N>(c: Context<N>): seq<N> {
    match c
    case Top => []
    case Frame(s, _, n, sib, up) => if s == Lft then Before(up) else Before(up) + Inorder(sib) + [n]
  }

  /** What follows the hole in order. */
  function After<N>(c: Context<N>): seq<N> {
    match c
    case Top => []
    case Frame(s, _, n, sib, up) => if s == Lft then [n] + Inorder(sib) + After(up) else After(up)
  }

  lemma {:induction false} PlugInorder<N>(c: Context<N>, t: Tree<N>)
    ensures Inorder(Plug(c, t)) == Before(c) + Inorder(t) + After(c)
    decreases c
  {
    match c
    case Top =>
    case Frame(s, red, n, sib, up) =>
      PlugInorder(up, Mk(s, red, t, n, sib));
  }

  // ---------- node sets and separation ----------

  ghost function Nodes<N>(t: Tree<N>): set<N> {
    match t
    case Leaf => {}
    case Node(_, l, n, r) => Nodes(l) + {n} + Nodes(r)
  }

  ghost function CNodes<N>(c: Context<N>): set<N> {
    match c
    case Top => {}
    case Frame(_, _, n, sib, up) => Nodes(sib) + {n} + CNodes(up)
  }

  /** No node occurs twice. */
  ghost predicate Sep<N>(t: Tree<N>) {
    match t
    case Leaf => true
    case Node(_, l, n, r) =>
      n !in Nodes(l) && n !in Nodes(r) && Nodes(l) !! Nodes(r) && Sep(l) && Sep(r)
  }

  ghost predicate SepParts<N>(a: Tree<N>, n: N, b: Tree<N>) {
    n !in Nodes(a) && n !in Nodes(b) && Nodes(a) !! Nodes(b) && Sep(a) && Sep(b)
  }

  lemma {:induction false} MkSep<N>(s: Side, red: bool, a: Tree<N>, n: N, b: Tree<N>)
    ensures Sep(Mk(s, red, a, n, b)) <==> SepParts(a, n, b)
    ensures Nodes(Mk(s, red, a, n, b)) == Nodes(a) + {n} + Nodes(b)
  {
  }

  ghost predicate CSep<N>(c: Context<N>) {
    match c
    case Top => true
    case Frame(_, _, n, sib, up) =>
      n !in Nodes(sib) && n !in CNodes(up) && Nodes(sib) !! CNodes(up) && Sep(sib) && CSep(up)
  }

  lemma {:induction false} PlugNodes<N>(c: Context<N>, t: Tree<N>)
    ensures Nodes(Plug(c, t)) == CNodes(c) + Nodes(t)
    decreases c
  {
    match c
    case Top =>
    case Frame(s, red, n, sib, up) =>
      PlugNodes(up, Mk(s, red, t, n, sib));
  }

  ghost function Elements<N>(s: seq<N>): set<N> {
    set v | v in s
  }

  lemma {:induction false} InorderNodes<N>(t: Tree<N>)
    ensures Nodes(t) == Elements(Inorder(t))
  {
    match t
    case Leaf =>
    case Node(_, l, n, r) =>
      InorderNodes(l);
      InorderNodes(r);
      assert Elements(Inorder(t)) == Elements(Inorder(l)) + {n} + Elements(Inorder(r));
  }

  lemma {:induction false} ContextElements<N>(c: Context<N>)
    ensures Elements(Before(c)) + Elements(After(c)) == CNodes(c)
  {
    match c
    case Top =>
    case Frame(s, _, n, sib, up) =>
      ContextElements(up);
      InorderNodes(sib);
      if s == Lft {
        assert Elements([n] + Inorder(sib) + After(up)) == {n} + Elements(Inorder(sib)) + Elements(After(up));
      } else {
        assert Elements(Before(up) + Inorder(sib) + [n]) == {n} + Elements(Inorder(sib)) + Elements(Before(up));
      }
  }

  /** A node that occurs once in the shape is not among those before and after it. */
  lemma {:induction false} OnlyOnce<N>(c: Context<N>, t: Tree<N>)
    requires t.Node? && Sep(t) && t.node !in CNodes(c)
    ensures t.node !in Elements(Before(c) + Inorder(t.left) + (Inorder(t.right) + After(c)))
  {
    ContextElements(c);
    InorderNodes(t.left);
    InorderNodes(t.right);
    assert t.node !in Elements(Before(c)) && t.node !in Elements(After(c));
    assert t.node !in Elements(Inorder(t.left)) && t.node !in Elements(Inorder(t.right));
  }

  /** The first node in order is the end of the left spine, the last one that of the right spine. */
  lemma {:induction false} ExtremeInorder<N>(s: Side, c: Context<N>, t: Tree<N>)
    requires t.Node? && Kid(s, t).Leaf?
    ensures s == Lft && Before(c) == [] ==> Inorder(Plug(c, t)) == [t.node] + Inorder(t.right) + After(c)
    ensures s == Rgt && After(c) == [] ==> Inorder(Plug(c, t)) == Before(c) + Inorder(t.left) + [t.node]
  {
    PlugInorder(c, t);
  }

  /** One node more in the sequence is one node more in the set. */
  lemma {:induction false} OneMore<N>(t: Tree<N>, t': Tree<N>, b: seq<N>, n: N, a: seq<N>)
    requires Inorder(t) == b + a && Inorder(t') == b + [n] + a
    ensures Nodes(t') == Nodes(t) + {n}
  {
    InorderNodes(t);
    InorderNodes(t');
    assert Elements(b + [n] + a) == Elements(b + a) + {n};
  }

  // ---------- paths in two pieces ----------

  /** The path `c1` inside the subtree in the hole of `c2`. */
  function Join<N>(c1: Context<N>, c2: Context<N>): Context<N> {
    if c1.Top? then c2 else c1.(up := Join(c1.up, c2))
  }

  lemma {:induction false} JoinPlug<N>(c1: Context<N>, c2: Context<N>, t: Tree<N>)
    ensures Plug(Join(c1, c2), t) == Plug(c2, Plug(c1, t))
    decreases c1
  {
    if c1.Frame? {
      JoinPlug(c1.up, c2, Mk(c1.side, c1.red, t, c1.node, c1.sib));
    }
  }

  lemma {:induction false} JoinNodes<N>(c1: Context<N>, c2: Context<N>)
    ensures CNodes(Join(c1, c2)) == CNodes(c1) + CNodes(c2)
  {
    if c1.Frame? {
      JoinNodes(c1.up, c2);
    }
  }

  lemma {:induction false} JoinAround<N>(c1: Context<N>, c2: Context<N>)
    ensures Before(Join(c1, c2)) == Before(c2) + Before(c1)
    ensures After(Join(c1, c2)) == After(c1) + After(c2)
  {
    if c1.Frame? {
      JoinAround(c1.up, c2);
    }
  }

  // ---------- red-black balance ----------

  predicate IsBlack<N>(t: Tree<N>) {
    t.Leaf? || !t.red
  }

  /** No red node has a red child. */
  predicate NoRedRed<N>(t: Tree<N>) {
    match t
    case Leaf => true
    case Node(red, l, _, r) => (red ==> IsBlack(l) && IsBlack(r)) && NoRedRed(l) && NoRedRed(r)
  }

  /** The black height along the left spine; `check_tree` counts the nil node as one. */
  function Height<N>(t: Tree<N>): (h: nat)
    ensures h >= 1
  {
    match t
    case Leaf => 1
    case Node(red, l, _, _) => Height(l) + if red then 0 else 1
  }

  /** Every path has the same number of black nodes. */
  predicate Balanced<N>(t: Tree<N>) {
    match t
    case Leaf => true
    case Node(_, l, _, r) => Balanced(l) && Balanced(r) && Height(l) == Height(r)
  }

  predicate RedBlack<N>(t: Tree<N>) {
    IsBlack(t) && NoRedRed(t) && Balanced(t)
  }

  lemma {:induction false} MkBalance<N>(s: Side, red: bool, a: Tree<N>, n: N, b: Tree<N>)
    ensures NoRedRed(Mk(s, red, a, n, b)) <==> (red ==> IsBlack(a) && IsBlack(b)) && NoRedRed(a) && NoRedRed(b)
    ensures Balanced(Mk(s, red, a, n, b)) <==> Balanced(a) && Balanced(b) && Height(a) == Height(b)
    ensures Height(a) == Height(b) ==> Height(Mk(s, red, a, n, b)) == Height(a) + if red then 0 else 1
  {
  }

  predicate CBlack<N>(c: Context<N>) {
    c.Top? || !c.red
  }

  predicate CNoRedRed<N>(c: Context<N>) {
    match c
    case Top => true
    case Frame(_, red, _, sib, up) =>
      NoRedRed(sib) && (red ==> IsBlack(sib) && CBlack(up)) && CNoRedRed(up)
  }

  /** The context is balanced around a hole of black height `h`. */
  predicate CBalanced<N>(c: Context<N>, h: nat) {
    match c
    case Top => true
    case Frame(_, red, _, sib, up) =>
      Balanced(sib) && Height(sib) == h && CBalanced(up, h + if red then 0 else 1)
  }

  /** The topmost node of the context, if there is one, is black. */
  predicate TopBlack<N>(c: Context<N>) {
    c.Top? || (if c.up.Top? then !c.red else TopBlack(c.up))
  }

  /** The balance conditions on a whole tree, split at a hole. */
  predicate CRedBlack<N>(c: Context<N>, h: nat) {
    CNoRedRed(c) && CBalanced(c, h) && TopBlack(c)
  }

  lemma {:induction false} PlugRedBlack<N>(c: Context<N>, t: Tree<N>)
    requires CRedBlack(c, Height(t))
    requires NoRedRed(t) && Balanced(t)
    requires IsBlack(t) || CBlack(c)
    ensures NoRedRed(Plug(c, t)) && Balanced(Plug(c, t))
    ensures c.Frame? || IsBlack(t) ==> IsBlack(Plug(c, t))
    decreases c
  {
    match c
    case Top =>
    case Frame(s, red, n, sib, up) =>
      PlugRedBlack(up, Mk(s, red, t, n, sib));
  }

  lemma {:induction false} UnplugRedBlack<N>(c: Context<N>, t: Tree<N>)
    requires RedBlack(Plug(c, t))
    ensures CRedBlack(c, Height(t))
    ensures NoRedRed(t) && Balanced(t)
    ensures IsBlack(t) || (c.Frame? && CBlack(c))
    decreases c
  {
    match c
    case Top =>
    case Frame(s, red, n, sib, up) =>
      UnplugRedBlack(up, Mk(s, red, t, n, sib));
  }

  // ---------- finding a node ----------

  /** The context of node `n` in the tree `Plug(c, t)`, and the subtree it is the root of. */
  ghost function Locate<N>(c: Context<N>, t: Tree<N>, n: N): (r: (Context<N>, Tree<N>))
    requires n in Nodes(t)
    ensures Plug(r.0, r.1) == Plug(c, t)
    ensures r.1.Node? && r.1.node == n
    decreases t
  {
    if t.node == n then (c, t)
    else if n in Nodes(t.left) then Locate(Frame(Lft, t.red, t.node, t.right, c), t.left, n)
    else Locate(Frame(Rgt, t.red, t.node, t.left, c), t.right, n)
  }

  /** What is plugged into a proper context does not change the root of the whole. */
  lemma {:induction false} PlugRoot<N>(nil: N, c: Context<N>, t: Tree<N>, t': Tree<N>)
    requires c.Frame?
    ensures RootOf(nil, Plug(c, t)) == RootOf(nil, Plug(c, t')) && RootOf(nil, Plug(c, t)) in CNodes(c)
    decreases c
  {
    if c.up.Frame? {
      PlugRoot(nil, c.up, Mk(c.side, c.red, t, c.node, c.sib), Mk(c.side, c.red, t', c.node, c.sib));
    }
  }

  lemma {:induction false} PlugRootSame<N>(nil: N, c: Context<N>, t: Tree<N>, t': Tree<N>)
    requires t.Node? && t'.Node? && t.node == t'.node
    ensures RootOf(nil, Plug(c, t)) == RootOf(nil, Plug(c, t'))
  {
    if c.Frame? {
      PlugRoot(nil, c, t, t');
    }
  }

  function RootOf<N>(nil: N, t: Tree<N>): N {
    if t.Leaf? then nil else t.node
  }

  function ContextNode<N>(root: N, c: Context<N>): N {
    if c.Top? then root else c.node
  }

  /** Turning an edge around keeps the order of the nodes. */
  lemma {:induction false} RotatedInorder<N>(s: Side, r1: bool, r2: bool, r3: bool, r4: bool, a: Tree<N>, x: N,
                                             m: Tree<N>, y: N, d: Tree<N>)
    ensures Inorder(Mk(s, r1, Mk(s, r2, a, x, m), y, d)) == Inorder(Mk(s, r3, a, x, Mk(s, r4, m, y, d)))
  {
    var a', m', d' := Inorder(a), Inorder(m), Inorder(d);
    assert s == Lft ==> a' + [x] + (m' + [y] + d') == a' + [x] + m' + [y] + d';
    assert s == Rgt ==> d' + [y] + (m' + [x] + a') == d' + [y] + m' + [x] + a';
  }
}
