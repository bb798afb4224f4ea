/**
 How linked nodes spell out a tree. The links are seen as a value here: the contents of every node
 at one moment. A change of the tree is a function on such values; that the methods of class RbTree
 carry out that change on the real nodes is stated there, and what the change means is proved here.
 */
module RbLinks {
  import opened RbShapes

  datatype Cell<N> = Cell(red: bool, parent: N, left: N, right: N) {
    function Child(s: Side): N {
      if s == Lft then left else right
    }

    /** Colour, parent, and the children on side `s` and on the other side. */
    ghost predicate Is(s: Side, red: bool, parent: N, child: N, other: N) {
      this == if s == Lft then Cell(red, parent, child, other) else Cell(red, parent, other, child)
    }

    function WithChild(s: Side, v: N): Cell<N> {
      if s == Lft then this.(left := v) else this.(right := v)
    }
  }

  /** The contents of the nodes, and the two sentinels. */
  datatype Store<N> = Store(nil: N, root: N, cells: map<N, Cell<N>>)

  // ---------- what the links say ----------

  /** The links below and including the root of `t` spell out `t`, hanging from `p`. */
  ghost predicate Rep<N>(h: Store<N>, t: Tree<N>, p: N) {
    match t
    case Leaf => true
    case Node(red, l, n, r) =>
      && n in h.cells && h.cells[n] == Cell(red, p, RootOf(h.nil, l), RootOf(h.nil, r))
      && Rep(h, l, n) && Rep(h, r, n)
  }

  /** The links of the context spell out `c`, with `child` in the hole. */
  ghost predicate CRep<N>(h: Store<N>, c: Context<N>, child: N) {
    match c
    case Top => h.root in h.cells && h.cells[h.root].left == child
    case Frame(s, red, n, sib, up) =>
      && n in h.cells && h.cells[n].red == red && h.cells[n].parent == ContextNode(h.root, up)
      && h.cells[n].Child(s) == child && h.cells[n].Child(Other(s)) == RootOf(h.nil, sib)
      && Rep(h, sib, n) && CRep(h, up, n)
  }

  ghost predicate Sentinels<N>(h: Store<N>) {
    && h.nil != h.root && h.nil in h.cells && h.root in h.cells
    && !h.cells[h.nil].red && !h.cells[h.root].red && h.cells[h.root].right == h.nil
  }

  /** All nodes of the split tree are different from each other and from the sentinels. */
  ghost predicate Apart<N>(h: Store<N>, c: Context<N>, t: Tree<N>) {
    && CSep(c) && Sep(t) && CNodes(c) !! Nodes(t)
    && {h.nil, h.root} !! CNodes(c) && {h.nil, h.root} !! Nodes(t)
  }

  /** The store holds the tree `Plug(c, t)`, looked at from the top of `t`. */
  ghost predicate At<N>(h: Store<N>, c: Context<N>, t: Tree<N>) {
    && Sentinels(h) && Apart(h, c, t)
    && CRep(h, c, RootOf(h.nil, t)) && Rep(h, t, ContextNode(h.root, c))
  }

  // ---------- moving the point of view ----------

  lemma {:induction false} ZoomOut<N>(h: Store<N>, c: Context<N>, t: Tree<N>)
    requires At(h, c, t)
    ensures At(h, Top, Plug(c, t))
    decreases c
  {
    match c
    case Top =>
    case Frame(s, red, n, sib, up) =>
      Up(h, s, red, t, n, sib, up);
      ZoomOut(h, up, Mk(s, red, t, n, sib));
  }

  lemma {:induction false} ZoomIn<N>(h: Store<N>, c: Context<N>, t: Tree<N>)
    requires At(h, Top, Plug(c, t))
    ensures At(h, c, t)
    decreases c
  {
    match c
    case Top =>
    case Frame(s, red, n, sib, up) =>
      ZoomIn(h, up, Mk(s, red, t, n, sib));
      Down(h, s, red, t, n, sib, up);
  }

  lemma {:induction false} MkRep<N>(h: Store<N>, s: Side, red: bool, a: Tree<N>, n: N, b: Tree<N>, p: N)
    ensures Rep(h, Mk(s, red, a, n, b), p) <==>
            && n in h.cells && h.cells[n].red == red && h.cells[n].parent == p
            && h.cells[n].Child(s) == RootOf(h.nil, a) && h.cells[n].Child(Other(s)) == RootOf(h.nil, b)
            && Rep(h, a, n) && Rep(h, b, n)
  {
  }

  /** From the root of a subtree to its parent. */
  lemma {:induction false} Up<N>(h: Store<N>, s: Side, red: bool, t: Tree<N>, n: N, sib: Tree<N>, up: Context<N>)
    requires At(h, Frame(s, red, n, sib, up), t)
    ensures At(h, up, Mk(s, red, t, n, sib))
  {
    MkSep(s, red, t, n, sib);
    MkRep(h, s, red, t, n, sib, ContextNode(h.root, up));
  }

  /** From the root of a subtree to its child on side `s`. */
  lemma {:induction false} Down<N>(h: Store<N>, s: Side, red: bool, t: Tree<N>, n: N, sib: Tree<N>, up: Context<N>)
    requires At(h, up, Mk(s, red, t, n, sib))
    ensures At(h, Frame(s, red, n, sib, up), t)
  {
    MkSep(s, red, t, n, sib);
    MkRep(h, s, red, t, n, sib, ContextNode(h.root, up));
  }

  /** The place `t` in a right subtree, seen from the top of the whole of that subtree and its parent, and back. */
  lemma {:induction false} RegroupOut<N>(h: Store<N>, c1: Context<N>, red: bool, n: N, l: Tree<N>, c: Context<N>,
                                         t: Tree<N>)
    requires At(h, Join(c1, Frame(Rgt, red, n, l, c)), t)
    ensures At(h, c, Node(red, l, n, Plug(c1, t)))
  {
    ZoomOut(h, Join(c1, Frame(Rgt, red, n, l, c)), t);
    JoinPlug(c1, Frame(Rgt, red, n, l, c), t);
    ZoomIn(h, c, Node(red, l, n, Plug(c1, t)));
  }

  /** The node at a place below the right child is none of the others there. */
  lemma {:induction false} PlaceApart<N>(h: Store<N>, c1: Context<N>, red: bool, n: N, l: Tree<N>, c: Context<N>,
                                         t: Tree<N>)
    requires At(h, Join(c1, Frame(Rgt, red, n, l, c)), t) && t.Node?
    ensures t.node !in CNodes(c) + Nodes(Node(red, l, n, Plug(c1, t.right))) + {h.nil, h.root}
  {
    JoinNodes(c1, Frame(Rgt, red, n, l, c));
    PlugNodes(c1, t.right);
    assert t.node in Nodes(t);
  }

  lemma {:induction false} RegroupIn<N>(h: Store<N>, c1: Context<N>, red: bool, n: N, l: Tree<N>, c: Context<N>,
                                        t: Tree<N>)
    requires At(h, c, Node(red, l, n, Plug(c1, t)))
    ensures At(h, Join(c1, Frame(Rgt, red, n, l, c)), t)
  {
    ZoomOut(h, c, Node(red, l, n, Plug(c1, t)));
    JoinPlug(c1, Frame(Rgt, red, n, l, c), t);
    ZoomIn(h, Join(c1, Frame(Rgt, red, n, l, c)), t);
  }

  // ---------- what a change leaves alone ----------

  ghost predicate SameOn<N>(h: Store<N>, h': Store<N>, s: set<N>) {
    forall n :: n in s && n in h.cells ==> n in h'.cells && h'.cells[n] == h.cells[n]
  }

  lemma {:induction false} RepFrame<N>(h: Store<N>, h': Store<N>, t: Tree<N>, p: N)
    requires Rep(h, t, p) && h'.nil == h.nil && SameOn(h, h', Nodes(t))
    ensures Rep(h', t, p)
  {
    match t
    case Leaf =>
    case Node(_, l, n, r) =>
      RepFrame(h, h', l, n);
      RepFrame(h, h', r, n);
  }

  lemma {:induction false} CRepFrame<N>(h: Store<N>, h': Store<N>, c: Context<N>, child: N)
    requires CRep(h, c, child) && h'.nil == h.nil && h'.root == h.root
    requires SameOn(h, h', CNodes(c) + {h.root})
    ensures CRep(h', c, child)
  {
    match c
    case Top =>
    case Frame(_, _, n, sib, up) =>
      RepFrame(h, h', sib, n);
      CRepFrame(h, h', up, n);
  }

  /** Of the nodes of `t`, only the top one has changed, and only in its parent. */
  ghost predicate Reparented<N>(h: Store<N>, h': Store<N>, t: Tree<N>, p: N) {
    t.Node? ==>
      && t.node in h.cells && t.node in h'.cells && h'.cells[t.node] == h.cells[t.node].(parent := p)
      && SameOn(h, h', Nodes(t) - {t.node})
  }

  /** The subtree `t` gets a new parent. */
  lemma {:induction false} RepParent<N>(h: Store<N>, h': Store<N>, t: Tree<N>, p: N, p': N)
    requires Rep(h, t, p) && h'.nil == h.nil && Sep(t) && Reparented(h, h', t, p')
    ensures Rep(h', t, p')
  {
    if t.Node? {
      RepFrame(h, h', t.left, t.node);
      RepFrame(h, h', t.right, t.node);
    }
  }

  /** The hole of the context gets a new child. */
  lemma {:induction false} CRepChild<N>(h: Store<N>, h': Store<N>, c: Context<N>, child: N, child': N)
    requires CRep(h, c, child) && h'.nil == h.nil && h'.root == h.root && CSep(c)
    requires Sentinels(h) && {h.nil, h.root} !! CNodes(c)
    requires var p := ContextNode(h.root, c);
             && p in h'.cells && h'.cells[p] == h.cells[p].WithChild(if c.Top? then Lft else c.side, child')
             && SameOn(h, h', CNodes(c) + {h.root} - {p})
    ensures CRep(h', c, child')
  {
    if c.Frame? {
      RepFrame(h, h', c.sib, c.node);
      CRepFrame(h, h', c.up, c.node);
    }
  }

  /** The side of the parent on which `x` hangs, as the tests `x == x->parent->left` find it. */
  lemma {:induction false} WhichSide<N>(h: Store<N>, c: Context<N>, t: Tree<N>, s: Side)
    requires At(h, c, t) && t.Node?
    ensures ContextNode(h.root, c) in h.cells
    ensures h.cells[ContextNode(h.root, c)].Child(s) == t.node <==> (if c.Top? then s == Lft else s == c.side)
  {
    if c.Frame? && c.sib.Node? {
      assert c.sib.node in CNodes(c);
    }
  }

  /** Nothing that the tree consists of has changed. */
  lemma {:induction false} AtFrame<N>(h: Store<N>, h': Store<N>, c: Context<N>, t: Tree<N>)
    requires At(h, c, t) && h'.nil == h.nil && h'.root == h.root
    requires SameOn(h, h', CNodes(c) + Nodes(t) + {h.nil, h.root})
    ensures At(h', c, t)
  {
    RepFrame(h, h', t, ContextNode(h.root, c));
    CRepFrame(h, h', c, RootOf(h.nil, t));
  }

  /** A new node `n` without children is put into an empty hole. */
  lemma {:induction false} AttachAt<N>(h: Store<N>, h': Store<N>, c: Context<N>, n: N, red: bool)
    requires At(h, c, Leaf) && h'.nil == h.nil && h'.root == h.root
    requires n !in CNodes(c) + {h.nil, h.root} && n in h'.cells
    requires var p := ContextNode(h.root, c);
             && h'.cells[n] == Cell(red, p, h.nil, h.nil)
             && p in h'.cells && p in h.cells
             && h'.cells[p] == h.cells[p].WithChild(if c.Top? then Lft else c.side, n)
             && SameOn(h, h', CNodes(c) + {h.nil, h.root} - {p})
    ensures At(h', c, Node(red, Leaf, n, Leaf))
  {
    CRepChild(h, h', c, h.nil, n);
  }

  /** What is read on the way from a node over its parent and grandparent to its uncle. */
  lemma {:induction false} WayToUncle<N>(h: Store<N>, c: Context<N>, t: Tree<N>)
    requires At(h, c, t) && t.Node? && c.Frame? && c.up.Frame?
    ensures {t.node, c.node, c.up.node, RootOf(h.nil, c.up.sib)} <= h.cells.Keys
    ensures h.cells[t.node].parent == c.node && h.cells[c.node].parent == c.up.node
    ensures h.cells[c.up.node].Child(Other(c.up.side)) == RootOf(h.nil, c.up.sib)
    ensures h.cells[RootOf(h.nil, c.up.sib)].red <==> !IsBlack(c.up.sib)
    ensures h.cells[c.up.node].left == c.node <==> c.up.side == Lft
  {
    assert CRep(h, c.up, c.node);
    assert c.up.sib.Node? ==> c.up.sib.node in Nodes(c.up.sib);
    assert c.node !in Nodes(c.up.sib);
  }

  /** What is read on the way from the top of a subtree over its parent to its sibling and that one's children. */
  lemma {:induction false} WayToSibling<N>(h: Store<N>, c: Context<N>, t: Tree<N>)
    requires At(h, c, t) && c.Frame? && c.sib.Node?
    ensures {c.node, c.sib.node, RootOf(h.nil, c.sib.left), RootOf(h.nil, c.sib.right)} <= h.cells.Keys
    ensures h.cells[c.node].red == c.red && h.cells[c.node].Child(Other(c.side)) == c.sib.node
    ensures h.cells[c.node].left == RootOf(h.nil, t) <==> c.side == Lft
    ensures var cell := h.cells[c.sib.node];
            && cell.red == c.sib.red && cell.left == RootOf(h.nil, c.sib.left)
            && cell.right == RootOf(h.nil, c.sib.right)
            && (h.cells[cell.left].red <==> !IsBlack(c.sib.left))
            && (h.cells[cell.right].red <==> !IsBlack(c.sib.right))
  {
    assert Rep(h, c.sib, c.node);
    assert Rep(h, c.sib.left, c.sib.node) && Rep(h, c.sib.right, c.sib.node);
    assert c.sib.node in CNodes(c);
    assert t.Node? ==> t.node in Nodes(t);
  }

  // ---------- taking nodes out ----------

  /** The node on top of `t` goes; its only subtree `u` (which may be empty) takes its place. */
  lemma {:induction false} DetachAt<N>(h: Store<N>, h': Store<N>, c: Context<N>, t: Tree<N>, u: Tree<N>)
    requires At(h, c, t) && t.Node? && ((t.left.Leaf? && u == t.right) || (t.right.Leaf? && u == t.left))
    requires h'.nil == h.nil && h'.root == h.root && h.nil in h'.cells && !h'.cells[h.nil].red
    requires var p := ContextNode(h.root, c);
             && p in h'.cells && p in h.cells
             && h'.cells[p] == h.cells[p].WithChild(if c.Top? then Lft else c.side, RootOf(h.nil, u))
             && SameOn(h, h', CNodes(c) + {h.root} - {p})
             && Reparented(h, h', u, p)
    ensures At(h', c, u)
  {
    assert Nodes(u) <= Nodes(t) && Sep(u);
    RepParent(h, h', u, t.node, ContextNode(h.root, c));
    CRepChild(h, h', c, t.node, RootOf(h.nil, u));
  }

  /** Node `y` takes over place, colour and links of `z`, the node on top. */
  lemma {:induction false} ReplaceAt<N>(h: Store<N>, h': Store<N>, c: Context<N>, red: bool, l: Tree<N>, z: N,
                                        r: Tree<N>, y: N)
    requires At(h, c, Node(red, l, z, r))
    requires y !in CNodes(c) + Nodes(Node(red, l, z, r)) + {h.nil, h.root}
    requires h'.nil == h.nil && h'.root == h.root && h.nil in h'.cells && !h'.cells[h.nil].red
    requires var p := ContextNode(h.root, c);
             && p in h'.cells && p in h.cells
             && h'.cells[p] == h.cells[p].WithChild(if c.Top? then Lft else c.side, y)
             && SameOn(h, h', CNodes(c) + {h.root} - {p})
             && y in h'.cells && h'.cells[y] == h.cells[z]
             && Reparented(h, h', l, y)
             && Reparented(h, h', r, y)
    ensures At(h', c, Node(red, l, y, r))
  {
    RepParent(h, h', l, z, y);
    RepParent(h, h', r, z, y);
    CRepChild(h, h', c, z, y);
  }

  /** `h'` is what `x->parent = y->parent`, and `x` in the place of `y` below that parent, make of `h`. */
  ghost predicate Detaches<N>(h: Store<N>, h': Store<N>, y: N, x: N) {
    && y in h.cells && x in h.cells && h.cells[y].parent in h.cells
    && var p, m, m' := h.cells[y].parent, h.cells, h'.cells;
    && h'.nil == h.nil && h'.root == h.root && m'.Keys == m.Keys
    && m'[p] == m[p].WithChild(if m[p].Child(Lft) == y then Lft else Rgt, x)
    && m'[x] == m[x].(parent := p)
    && SameOn(h, h', m.Keys - {p, x})
  }

  lemma {:induction false} DetachPlaces<N>(h: Store<N>, c: Context<N>, t: Tree<N>, u: Tree<N>)
    requires At(h, c, t) && t.Node? && ((t.left.Leaf? && u == t.right) || (t.right.Leaf? && u == t.left))
    ensures var y, x, p := t.node, RootOf(h.nil, u), ContextNode(h.root, c);
            && {y, x, p} <= h.cells.Keys && h.cells[y].parent == p && p !in {x, y} && x != y
            && h.cells[y].left == RootOf(h.nil, t.left) && h.cells[y].right == RootOf(h.nil, t.right)
    ensures h.nil !in Nodes(t)
  {
    assert Rep(h, u, t.node);
    assert u.Node? ==> u.node in Nodes(u) && Nodes(u) <= Nodes(t);
  }

  lemma {:induction false} DetachesAt<N>(h: Store<N>, h': Store<N>, c: Context<N>, t: Tree<N>, u: Tree<N>)
    requires At(h, c, t) && t.Node? && ((t.left.Leaf? && u == t.right) || (t.right.Leaf? && u == t.left))
    requires Detaches(h, h', t.node, RootOf(h.nil, u))
    ensures At(h', c, u)
  {
    DetachPlaces(h, c, t, u);
    WhichSide(h, c, t, Lft);
    assert Nodes(u) <= Nodes(t) && Sep(u);
    assert u.Node? ==> u.node in Nodes(u);
    DetachAt(h, h', c, t, u);
  }

  /** The nodes that the replacement of `z` by `y` reads and writes, which are different ones. */
  ghost predicate Replaceable<N>(h: Store<N>, z: N, y: N) {
    && z in h.cells && y in h.cells
    && var cell := h.cells[z];
    && {cell.parent, cell.left, cell.right} <= h.cells.Keys
    && cell.parent !in {z, y, cell.left, cell.right} && z !in {y, cell.left, cell.right}
    && y !in {cell.left, cell.right} && cell.left != cell.right
  }

  /** The neighbours of `z` have `y` in its place. */
  ghost predicate Redirected<N>(h: Store<N>, h': Store<N>, z: N, y: N) {
    && Replaceable(h, z, y)
    && var m, m', p, l, r := h.cells, h'.cells, h.cells[z].parent, h.cells[z].left, h.cells[z].right;
    && h'.nil == h.nil && h'.root == h.root && m'.Keys == m.Keys
    && m'[p] == m[p].WithChild(if m[p].Child(Lft) == z then Lft else Rgt, y)
    && m'[l] == m[l].(parent := y) && m'[r] == m[r].(parent := y)
    && SameOn(h, h', m.Keys - {p, l, r})
  }

  lemma {:induction false} RedirectedReplaces<N>(h: Store<N>, h1: Store<N>, z: N, y: N)
    requires Redirected(h, h1, z, y)
    ensures Replaceable(h, z, y) && z in h1.cells && y in h1.cells
    ensures Replaces(h, PutCell(h1, y, h1.cells[z]), z, y)
  {
  }

  /** `h'` is what putting `y` below the parent and above the children of `z`, and `*y = *z`, make of `h`. */
  ghost predicate Replaces<N>(h: Store<N>, h': Store<N>, z: N, y: N)
    requires Replaceable(h, z, y)
  {
    var m, m', p, l, r := h.cells, h'.cells, h.cells[z].parent, h.cells[z].left, h.cells[z].right;
    && h'.nil == h.nil && h'.root == h.root && m'.Keys == m.Keys
    && m'[p] == m[p].WithChild(if m[p].Child(Lft) == z then Lft else Rgt, y)
    && m'[l] == m[l].(parent := y) && m'[r] == m[r].(parent := y) && m'[y] == m[z]
    && SameOn(h, h', m.Keys - {p, l, r, y})
  }

  lemma {:induction false} ReplacePlaces<N>(h: Store<N>, c: Context<N>, red: bool, l: Tree<N>, z: N, r: Tree<N>, y: N)
    requires At(h, c, Node(red, l, z, r)) && l.Node?
    requires y in h.cells && y !in CNodes(c) + Nodes(Node(red, l, z, r)) + {h.nil, h.root}
    ensures Replaceable(h, z, y)
    ensures h.cells[z] == Cell(red, ContextNode(h.root, c), l.node, RootOf(h.nil, r))
  {
    assert Rep(h, l, z) && Rep(h, r, z);
    assert l.node in Nodes(l) && (r.Node? ==> r.node in Nodes(r));
  }

  lemma {:induction false} ReplacesAt<N>(h: Store<N>, h': Store<N>, c: Context<N>, red: bool, l: Tree<N>, z: N,
                                         r: Tree<N>, y: N)
    requires At(h, c, Node(red, l, z, r)) && l.Node?
    requires y in h.cells && y !in CNodes(c) + Nodes(Node(red, l, z, r)) + {h.nil, h.root}
    requires Replaceable(h, z, y) && Replaces(h, h', z, y)
    ensures At(h', c, Node(red, l, y, r))
  {
    ReplacePlaces(h, c, red, l, z, r, y);
    WhichSide(h, c, Node(red, l, z, r), Lft);
    assert l.node in Nodes(l) && (r.Node? ==> r.node in Nodes(r));
    ReplaceAt(h, h', c, red, l, z, r, y);
  }

  /** From the root of a subtree to its sibling. */
  lemma {:induction false} Across<N>(h: Store<N>, s: Side, red: bool, t: Tree<N>, n: N, sib: Tree<N>, up: Context<N>)
    requires At(h, Frame(s, red, n, sib, up), t)
    ensures At(h, Frame(Other(s), red, n, t, up), sib)
  {
    Up(h, s, red, t, n, sib, up);
    MkFlip(s, red, t, n, sib);
    Down(h, Other(s), red, sib, n, t, up);
  }

  // ---------- colours ----------

  function Recolor<N>(h: Store<N>, n: N, red: bool): Store<N>
    requires n in h.cells
  {
    h.(cells := h.cells[n := h.cells[n].(red := red)])
  }

  lemma {:induction false} RecolorAt<N>(h: Store<N>, c: Context<N>, t: Tree<N>, red: bool)
    requires At(h, c, t) && t.Node?
    ensures At(Recolor(h, t.node, red), c, t.(red := red))
  {
    var h' := Recolor(h, t.node, red);
    RepFrame(h, h', t.left, t.node);
    RepFrame(h, h', t.right, t.node);
    CRepFrame(h, h', c, t.node);
  }

  // ---------- rotation ----------

  function PutCell<N>(h: Store<N>, n: N, cell: Cell<N>): Store<N> {
    h.(cells := h.cells[n := cell])
  }

  /** The nodes that a rotation of `x` reads and writes are there, and are different ones. */
  ghost predicate Rotatable<N>(s: Side, h: Store<N>, x: N) {
    && x in h.cells && h.cells[x].Child(Other(s)) in h.cells && h.cells[x].parent in h.cells
    && h.cells[h.cells[x].Child(Other(s))].Child(s) in h.cells
    && var y, p := h.cells[x].Child(Other(s)), h.cells[x].parent;
    var b := h.cells[y].Child(s);
    x != y && x != p && y != p && b !in {x, y, p} && h.nil !in {x, y, p}
  }

  /** `h'` is what FUNC_ROTATE(func, s, Other(s)) makes of `h`. */
  ghost predicate Rotates<N>(s: Side, h: Store<N>, h': Store<N>, x: N)
    requires Rotatable(s, h, x)
  {
    var y, p := h.cells[x].Child(Other(s)), h.cells[x].parent;
    var b := h.cells[y].Child(s);
    var m, m' := h.cells, h'.cells;
    && h'.nil == h.nil && h'.root == h.root && m'.Keys == m.Keys
    && m'[x] == m[x].WithChild(Other(s), b).(parent := y)
    && m'[y] == m[y].WithChild(s, x).(parent := p)
    && m'[p] == m[p].WithChild(if x == m[p].Child(s) then s else Other(s), y)
    && m'[b] == (if b == h.nil then m[b] else m[b].(parent := x))
    && SameOn(h, h', m.Keys - {x, y, p, b})
  }

  /** The pieces that a rotation moves around still are what they were. */
  lemma {:induction false} RotationReps<N>(h: Store<N>, h': Store<N>, c: Context<N>, a: Tree<N>, m: Tree<N>, d: Tree<N>,
                                           x: N, y: N)
    requires h'.nil == h.nil && h'.root == h.root && h'.cells.Keys == h.cells.Keys
    requires Sentinels(h) && CSep(c) && Sep(m) && {h.nil, h.root} !! CNodes(c)
    requires Rep(h, a, x) && Rep(h, m, y) && Rep(h, d, y) && CRep(h, c, x)
    requires SameOn(h, h', Nodes(a) + Nodes(d)) && Reparented(h, h', m, x)
    requires var p := ContextNode(h.root, c);
             && p in h.cells && h'.cells[p] == h.cells[p].WithChild(if c.Top? then Lft else c.side, y)
             && SameOn(h, h', CNodes(c) + {h.root} - {p})
    ensures Rep(h', a, x) && Rep(h', d, y) && Rep(h', m, x) && CRep(h', c, y)
  {
    RepFrame(h, h', a, x);
    RepFrame(h, h', d, y);
    RepParent(h, h', m, y, x);
    CRepChild(h, h', c, x, y);
  }

  /** What a rotation needs to know about the nodes involved. */
  ghost predicate RotationParts<N>(h: Store<N>, c: Context<N>, a: Tree<N>, x: N, m: Tree<N>, y: N, d: Tree<N>) {
    var p := ContextNode(h.root, c);
    && Sentinels(h) && CSep(c) && Sep(m) && {h.nil, h.root} !! CNodes(c)
    && x != y && x != p && y != p && h.nil !in {x, y, p} && h.root !in {x, y}
    && {x, y, p} !! Nodes(a) && {x, y, p} !! Nodes(m) && {x, y, p} !! Nodes(d)
    && Nodes(a) !! Nodes(m) && Nodes(m) !! Nodes(d) && h.nil !in Nodes(a) + Nodes(m) + Nodes(d)
    && {x, y} !! CNodes(c) && Nodes(m) !! CNodes(c) && h.root !in Nodes(m)
  }

  lemma {:induction false} RotationApart<N>(s: Side, h: Store<N>, c: Context<N>, rx: bool, a: Tree<N>, x: N, ry: bool,
                                            m: Tree<N>, y: N, d: Tree<N>)
    requires Sentinels(h) && Apart(h, c, Mk(s, rx, a, x, Mk(s, ry, m, y, d)))
    ensures RotationParts(h, c, a, x, m, y, d)
    ensures Apart(h, c, Mk(s, ry, Mk(s, rx, a, x, m), y, d))
  {
    var u := Mk(s, ry, m, y, d);
    MkSep(s, rx, a, x, u);
    MkSep(s, ry, m, y, d);
    MkSep(s, rx, a, x, m);
    MkSep(s, ry, Mk(s, rx, a, x, m), y, d);
  }

  lemma {:induction false} RotationUnpack<N>(s: Side, h: Store<N>, rx: bool, a: Tree<N>, x: N, ry: bool, m: Tree<N>,
                                             y: N, d: Tree<N>, p: N)
    requires Rep(h, Mk(s, rx, a, x, Mk(s, ry, m, y, d)), p)
    ensures x in h.cells && y in h.cells && Rep(h, a, x) && Rep(h, m, y) && Rep(h, d, y)
    ensures h.cells[x].Is(s, rx, p, RootOf(h.nil, a), y)
    ensures h.cells[y].Is(s, ry, x, RootOf(h.nil, m), RootOf(h.nil, d))
  {
    MkRep(h, s, rx, a, x, Mk(s, ry, m, y, d), p);
    MkRep(h, s, ry, m, y, d, x);
  }

  lemma {:induction false} RotationPack<N>(s: Side, h: Store<N>, rx: bool, a: Tree<N>, x: N, ry: bool, m: Tree<N>, y: N,
                                           d: Tree<N>, p: N)
    requires x in h.cells && y in h.cells && Rep(h, a, x) && Rep(h, m, x) && Rep(h, d, y)
    requires h.cells[x].Is(s, rx, y, RootOf(h.nil, a), RootOf(h.nil, m))
    requires h.cells[y].Is(s, ry, p, x, RootOf(h.nil, d))
    ensures Rep(h, Mk(s, ry, Mk(s, rx, a, x, m), y, d), p)
  {
    MkRep(h, s, rx, a, x, m, y);
    MkRep(h, s, ry, Mk(s, rx, a, x, m), y, d, p);
  }

  /** The tree before a rotation, taken apart. */
  ghost predicate RotationOpen<N>(s: Side, h: Store<N>, c: Context<N>, rx: bool, a: Tree<N>, x: N, ry: bool, m: Tree<N>,
                                  y: N, d: Tree<N>) {
    var p := ContextNode(h.root, c);
    && RotationParts(h, c, a, x, m, y, d) && Apart(h, c, Mk(s, ry, Mk(s, rx, a, x, m), y, d))
    && {x, y, p} <= h.cells.Keys
    && Rep(h, a, x) && Rep(h, m, y) && Rep(h, d, y) && CRep(h, c, x)
    && h.cells[x].Is(s, rx, p, RootOf(h.nil, a), y)
    && h.cells[y].Is(s, ry, x, RootOf(h.nil, m), RootOf(h.nil, d))
    && (h.cells[p].Child(s) == x <==> (if c.Top? then s == Lft else s == c.side))
  }

  lemma {:induction false} RotationOpens<N>(s: Side, h: Store<N>, c: Context<N>, rx: bool, a: Tree<N>, x: N, ry: bool,
                                            m: Tree<N>, y: N, d: Tree<N>)
    requires At(h, c, Mk(s, rx, a, x, Mk(s, ry, m, y, d)))
    ensures RotationOpen(s, h, c, rx, a, x, ry, m, y, d)
  {
    RotationApart(s, h, c, rx, a, x, ry, m, y, d);
    WhichSide(h, c, Mk(s, rx, a, x, Mk(s, ry, m, y, d)), s);
    RotationUnpack(s, h, rx, a, x, ry, m, y, d, ContextNode(h.root, c));
  }

  /** The cells that a rotation changes; `ra`, `b`, `rd` are the roots of the three subtrees. */
  lemma {:induction false} RotationCells<N>(s: Side, h: Store<N>, h': Store<N>, side: Side, rx: bool, ra: N, x: N,
                                            ry: bool, b: N, y: N, rd: N, p: N)
    requires Rotatable(s, h, x) && Rotates(s, h, h', x) && y in h.cells && p in h.cells
    requires h.cells[x].Is(s, rx, p, ra, y) && h.cells[y].Is(s, ry, x, b, rd)
    requires h.cells[p].Child(s) == x <==> s == side
    ensures SameOn(h, h', h.cells.Keys - {x, y, p} - (if b == h.nil then {} else {b}))
    ensures h'.cells[p] == h.cells[p].WithChild(side, y)
    ensures b != h.nil ==> h'.cells[b] == h.cells[b].(parent := x)
    ensures h'.cells[x].Is(s, rx, y, ra, b) && h'.cells[y].Is(s, ry, p, x, rd)
  {
  }

  /** The parts of the tree that a rotation keeps. */
  lemma {:induction false} RotationKeeps<N>(h: Store<N>, h': Store<N>, c: Context<N>, a: Tree<N>, x: N, m: Tree<N>,
                                            y: N, d: Tree<N>)
    requires RotationParts(h, c, a, x, m, y, d) && h'.cells.Keys == h.cells.Keys
    requires SameOn(h, h', h.cells.Keys - {x, y, ContextNode(h.root, c)} - (if m.Node? then {m.node} else {}))
    ensures SameOn(h, h', Nodes(a) + Nodes(d) + (if m.Node? then Nodes(m) - {m.node} else {}))
    ensures SameOn(h, h', CNodes(c) + {h.root} - {ContextNode(h.root, c)})
    ensures h'.cells[h.nil] == h.cells[h.nil]
  {
    assert m.Node? ==> m.node in Nodes(m);
  }

  lemma {:induction false} RotationCloses<N>(s: Side, h: Store<N>, h': Store<N>, c: Context<N>, rx: bool, a: Tree<N>,
                                             x: N, ry: bool, m: Tree<N>, y: N, d: Tree<N>)
    requires RotationOpen(s, h, c, rx, a, x, ry, m, y, d) && Rotatable(s, h, x) && Rotates(s, h, h', x)
    ensures Rep(h', Mk(s, ry, Mk(s, rx, a, x, m), y, d), ContextNode(h.root, c))
    ensures CRep(h', c, y) && Sentinels(h')
  {
    assert m.Node? ==> m.node in Nodes(m);
    RotationCells(s, h, h', if c.Top? then Lft else c.side,
                  rx, RootOf(h.nil, a), x, ry, RootOf(h.nil, m), y, RootOf(h.nil, d), ContextNode(h.root, c));
    RotationKeeps(h, h', c, a, x, m, y, d);
    assert Reparented(h, h', m, x);
    RotationReps(h, h', c, a, m, d, x, y);
    RotationPack(s, h', rx, a, x, ry, m, y, d, ContextNode(h.root, c));
  }

  lemma {:induction false} RotationReady<N>(s: Side, h: Store<N>, c: Context<N>, rx: bool, a: Tree<N>, x: N, ry: bool,
                                            m: Tree<N>, y: N, d: Tree<N>)
    requires At(h, c, Mk(s, rx, a, x, Mk(s, ry, m, y, d)))
    ensures Rotatable(s, h, x)
  {
    RotationOpens(s, h, c, rx, a, x, ry, m, y, d);
    assert m.Node? ==> m.node in Nodes(m);
  }

  lemma {:induction false} RotationAt<N>(s: Side, h: Store<N>, h': Store<N>, c: Context<N>, rx: bool, a: Tree<N>, x: N,
                                         ry: bool, m: Tree<N>, y: N, d: Tree<N>)
    requires At(h, c, Mk(s, rx, a, x, Mk(s, ry, m, y, d)))
    requires Rotatable(s, h, x) && Rotates(s, h, h', x)
    ensures At(h', c, Mk(s, ry, Mk(s, rx, a, x, m), y, d))
  {
    RotationOpens(s, h, c, rx, a, x, ry, m, y, d);
    RotationCloses(s, h, h', c, rx, a, x, ry, m, y, d);
    assert Apart(h, c, Mk(s, ry, Mk(s, rx, a, x, m), y, d));
    assert RootOf(h.nil, Mk(s, ry, Mk(s, rx, a, x, m), y, d)) == y;
  }
}
