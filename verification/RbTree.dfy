/**
 The red-black tree of kern/libs/rb_tree.c over a mutable heap: nodes with colour, parent and child
 links, a black `nil` node standing for every missing child, and a `root` node whose left child is
 the root of the tree.

 A tree node is embedded in the structure it orders. The kernel's only such structure is the virtual
 memory area, so the class below is that structure: the tree's link fields, and the fields of the
 area, which the tree reads (through the compare function) and never writes.
 */
module RbTree {
  import opened RbShapes
  import opened RbLinks
  import opened RbInsertAlgebra
  import opened RbDeleteAlgebra

  class Vma {
    var red: bool
    var parent: Vma
    var left: Vma
    var right: Vma
    var vm_start: int
    var vm_end: int
    var vm_flags: bv32

    /** vma_create; the links are not set yet. */
    constructor (start: int, end: int, flags: bv32)
      ensures vm_start == start && vm_end == end && vm_flags == flags
      ensures !red && parent == left == right == this
    {
      vm_start, vm_end, vm_flags := start, end, flags;
      red, parent, left, right := false, this, this, this;
    }

    function Child(s: Side): Vma
      reads this`left, this`right
    {
      if s == Lft then left else right
    }
  }

  type Shape = Tree<Vma>
  type Path = Context<Vma>

  /** `vma_compare`: the order of the start addresses. */
  function Compare(v1: Vma, v2: Vma): int
    reads v1`vm_start, v2`vm_start
  {
    if v1.vm_start < v2.vm_start then -1 else if v1.vm_start > v2.vm_start then 1 else 0
  }

  /** The keys of the given nodes. */
  ghost function Keys(nodes: set<Vma>): map<Vma, int>
    reads nodes`vm_start
  {
    map v | v in nodes :: v.vm_start
  }

  ghost predicate SortedBy(keys: map<Vma, int>, s: seq<Vma>) {
    && (forall v :: v in s ==> v in keys)
    && forall i, j :: 0 <= i < j < |s| ==> keys[s[i]] <= keys[s[j]]
  }

  /** No key in `b` is larger than `key`, and all those in `a` are. */
  ghost predicate Divides(keys: map<Vma, int>, key: int, b: seq<Vma>, a: seq<Vma>) {
    && (forall v :: v in b ==> v in keys && keys[v] <= key)
    && (forall v :: v in a ==> v in keys && keys[v] > key)
  }

  /** In a sorted sequence, what precedes `n` is not larger and what follows it is not smaller. */
  lemma {:induction false} SortedAround(keys: map<Vma, int>, b: seq<Vma>, l: seq<Vma>, n: Vma, r: seq<Vma>, a: seq<Vma>)
    requires SortedBy(keys, b + (l + [n] + r) + a)
    ensures n in keys
    ensures forall v :: v in l ==> v in keys && keys[v] <= keys[n]
    ensures forall v :: v in r ==> v in keys && keys[v] >= keys[n]
  {
    var s := b + (l + [n] + r) + a;
    assert s[|b| + |l|] == n;
    forall i | 0 <= i < |l|
      ensures l[i] in keys && keys[l[i]] <= keys[n]
    {
      assert s[|b| + i] == l[i];
    }
    forall i | 0 <= i < |r|
      ensures r[i] in keys && keys[r[i]] >= keys[n]
    {
      assert s[|b| + |l| + 1 + i] == r[i];
    }
  }

  /** All keys in `b` are smaller than `key`, and all those in `a` are larger. */
  ghost predicate Misses(keys: map<Vma, int>, key: int, b: seq<Vma>, a: seq<Vma>) {
    && (forall v :: v in b ==> v in keys && keys[v] < key)
    && (forall v :: v in a ==> v in keys && keys[v] > key)
  }

  /** One step down in a search for a key. */
  lemma {:induction false} SearchStep(h: Store<Vma>, keys: map<Vma, int>, key: int, c: Path, t: Shape, s: Side)
    requires At(h, c, t) && t.Node? && SortedBy(keys, Inorder(Plug(c, t))) && Misses(keys, key, Before(c), After(c))
    requires t.node in keys && keys[t.node] != key && (s == Lft <==> keys[t.node] > key)
    ensures var c', t' := Frame(s, t.red, t.node, Kid(Other(s), t), c), Kid(s, t);
            At(h, c', t') && Plug(c', t') == Plug(c, t) && Misses(keys, key, Before(c'), After(c'))
  {
    PlugInorder(c, t);
    SortedAround(keys, Before(c), Inorder(t.left), t.node, Inorder(t.right), After(c));
    Down(h, s, t.red, Kid(s, t), t.node, Kid(Other(s), t), c);
  }

  /** One step down, to the side on which a node with the given key belongs. */
  lemma {:induction false} StepDown(h: Store<Vma>, keys: map<Vma, int>, key: int, c: Path, t: Shape, s: Side)
    requires At(h, c, t) && t.Node? && SortedBy(keys, Inorder(Plug(c, t))) && Divides(keys, key, Before(c), After(c))
    requires t.node in keys && (s == Lft <==> keys[t.node] > key)
    ensures var c', t' := Frame(s, t.red, t.node, Kid(Other(s), t), c), Kid(s, t);
            At(h, c', t') && Plug(c', t') == Plug(c, t) && Divides(keys, key, Before(c'), After(c'))
  {
    PlugInorder(c, t);
    SortedAround(keys, Before(c), Inorder(t.left), t.node, Inorder(t.right), After(c));
    Down(h, s, t.red, Kid(s, t), t.node, Kid(Other(s), t), c);
  }

  class RbTree {
    const nil: Vma
    const root: Vma
    ghost var shape: Shape

    ghost function Links(nodes: set<Vma>): Store<Vma>
      reads nodes`red, nodes`left, nodes`right, nodes`parent
    {
      Store(nil, root, map v | v in nodes :: Cell(v.red, v.parent, v.left, v.right))
    }

    /** The nodes of the tree and the two sentinels. */
    ghost function Repr(): set<Vma>
      reads this
    {
      Nodes(shape) + {nil, root}
    }

    /** The nodes in order. */
    ghost function Contents(): seq<Vma>
      reads this
    {
      Inorder(shape)
    }

    /** What `check_tree` asserts of links, colours and black heights. */
    ghost predicate Valid()
      reads this, Repr()`red, Repr()`left, Repr()`right, Repr()`parent
    {
      At(Links(Repr()), Top, shape) && RedBlack(shape)
    }

    /** rb_tree_create, when its allocations succeed. */
    constructor ()
      ensures Valid() && Contents() == []
      ensures fresh(Repr())
    {
      var nl := new Vma(0, 0, 0);
      var rt := new Vma(0, 0, 0);
      nil, root := nl, rt;
      shape := Leaf;
      new;
      nil.parent, nil.left, nil.right := nil, nil, nil;
      root.parent, root.left, root.right := nil, nil, nil;
    }

    // ---------- single changes of the links ----------

    method SetRed(n: Vma, v: bool, ghost nodes: set<Vma>)
      requires n in nodes
      modifies n`red
      ensures Links(nodes) == old(Recolor(Links(nodes), n, v))
    {
      n.red := v;
    }

    /** FUNC_ROTATE(rb_left_rotate, left, right). */
    method LeftRotate(x: Vma, ghost nodes: set<Vma>)
      requires Rotatable(Lft, Links(nodes), x)
      modifies nodes`left, nodes`right, nodes`parent
      ensures Rotates(Lft, old(Links(nodes)), Links(nodes), x)
    {
      ghost var h := Links(nodes);
      var y := x.right;
      assert h.cells[x].right == y && y in nodes;
      assert h.cells[y].left == y.left && y.left in nodes;
      assert h.cells[x].parent == x.parent && x.parent in nodes;
      x.right := y.left;
      if y.left != nil {
        y.left.parent := x;
      }
      y.parent := x.parent;
      if x == x.parent.left {
        x.parent.left := y;
      } else {
        x.parent.right := y;
      }
      y.left := x;
      x.parent := y;
    }

    /** FUNC_ROTATE(rb_right_rotate, right, left). */
    method RightRotate(x: Vma, ghost nodes: set<Vma>)
      requires Rotatable(Rgt, Links(nodes), x)
      modifies nodes`left, nodes`right, nodes`parent
      ensures Rotates(Rgt, old(Links(nodes)), Links(nodes), x)
    {
      ghost var h := Links(nodes);
      var y := x.left;
      assert h.cells[x].left == y && y in nodes;
      assert h.cells[y].right == y.right && y.right in nodes;
      assert h.cells[x].parent == x.parent && x.parent in nodes;
      x.left := y.right;
      if y.right != nil {
        y.right.parent := x;
      }
      y.parent := x.parent;
      if x == x.parent.right {
        x.parent.right := y;
      } else {
        x.parent.left := y;
      }
      y.right := x;
      x.parent := y;
    }

    method Rotate(s: Side, x: Vma, ghost nodes: set<Vma>)
      requires Rotatable(s, Links(nodes), x)
      modifies nodes`left, nodes`right, nodes`parent
      ensures Rotates(s, old(Links(nodes)), Links(nodes), x)
    {
      if s == Lft {
        LeftRotate(x, nodes);
      } else {
        RightRotate(x, nodes);
      }
    }

    // ---------- the same changes, at a place in the tree ----------

    method Paint(n: Vma, v: bool, ghost nodes: set<Vma>, ghost c: Path, ghost t: Shape)
      requires At(Links(nodes), c, t) && t.Node? && t.node == n
      modifies nodes`red
      ensures At(Links(nodes), c, t.(red := v))
    {
      RecolorAt(Links(nodes), c, t, v);
      SetRed(n, v, nodes);
    }

    /** A change of colour one step above the place. */
    method PaintParent(n: Vma, v: bool, ghost nodes: set<Vma>, ghost s: Side, ghost red: bool, ghost t: Shape,
                       ghost sib: Shape, ghost up: Path)
      requires At(Links(nodes), Frame(s, red, n, sib, up), t)
      modifies nodes`red
      ensures At(Links(nodes), Frame(s, v, n, sib, up), t)
    {
      Up(Links(nodes), s, red, t, n, sib, up);
      Paint(n, v, nodes, up, Mk(s, red, t, n, sib));
      Down(Links(nodes), s, v, t, n, sib, up);
    }

    /** A change of colour on the other side of the parent. */
    method PaintSibling(n: Vma, v: bool, ghost nodes: set<Vma>, ghost s: Side, ghost red: bool, ghost t: Shape,
                        ghost p: Vma, ghost sib: Shape, ghost up: Path)
      requires At(Links(nodes), Frame(s, red, p, sib, up), t) && sib.Node? && sib.node == n
      modifies nodes`red
      ensures At(Links(nodes), Frame(s, red, p, sib.(red := v), up), t)
    {
      Across(Links(nodes), s, red, t, p, sib, up);
      Paint(n, v, nodes, Frame(Other(s), red, p, t, up), sib);
      Across(Links(nodes), Other(s), red, sib.(red := v), p, t, up);
    }

    method RotateAt(s: Side, ghost nodes: set<Vma>, ghost c: Path,
                    ghost rx: bool, ghost a: Shape, x: Vma, ghost ry: bool, ghost m: Shape, ghost y: Vma,
                      ghost d: Shape)
      requires At(Links(nodes), c, Mk(s, rx, a, x, Mk(s, ry, m, y, d)))
      modifies nodes`left, nodes`right, nodes`parent
      ensures At(Links(nodes), c, Mk(s, ry, Mk(s, rx, a, x, m), y, d))
      ensures nil.parent == old(nil.parent)
    {
      ghost var h := Links(nodes);
      RotationReady(s, h, c, rx, a, x, ry, m, y, d);
      Rotate(s, x, nodes);
      RotationAt(s, h, Links(nodes), c, rx, a, x, ry, m, y, d);
      assert h.cells[nil].parent == Links(nodes).cells[nil].parent;
    }

    /** The other rotation of the pair: the child `v` on side `s` comes up over `w`. */
    method RotateBackAt(s: Side, ghost nodes: set<Vma>, ghost c: Path,
                        ghost rw: bool, ghost rv: bool, ghost a: Shape, ghost v: Vma, ghost b: Shape, w: Vma,
                          ghost d: Shape)
      requires At(Links(nodes), c, Mk(s, rw, Mk(s, rv, a, v, b), w, d))
      modifies nodes`left, nodes`right, nodes`parent
      ensures At(Links(nodes), c, Mk(s, rv, a, v, Mk(s, rw, b, w, d)))
      ensures nil.parent == old(nil.parent)
    {
      MkFlip(s, rw, Mk(s, rv, a, v, b), w, d);
      MkFlip(s, rv, a, v, b);
      MkFlip(s, rw, b, w, d);
      MkFlip(s, rv, a, v, Mk(s, rw, b, w, d));
      RotateAt(Other(s), nodes, c, rw, d, w, rv, b, v, a);
    }

    // ---------- rb_insert ----------

    /** RB_INSERT_SUB with a red uncle. */
    method InsertRecolor(s: Side, x: Vma, y: Vma, ghost nodes: set<Vma>, ghost s1: Side, ghost t: Shape,
                         ghost p: Vma, ghost sib: Shape, ghost g: Vma, ghost uncle: Shape, ghost up: Path)
      returns (x': Vma)
      requires At(Links(nodes), Frame(s1, true, p, sib, Frame(s, false, g, uncle, up)), t)
      requires t.Node? && t.node == x && uncle.Node? && uncle.node == y
      modifies nodes`red
      ensures x' == g && At(Links(nodes), up, Recolored(s, s1, t, p, sib, g, uncle))
    {
      ghost var c := Frame(s, false, g, uncle, up);
      var px := x.parent;
      PaintParent(px, false, nodes, s1, true, t, sib, c);
      Up(Links(nodes), s1, false, t, p, sib, c);
      PaintSibling(y, false, nodes, s, false, Mk(s1, false, t, p, sib), g, uncle, up);
      x' := px.parent;
      PaintParent(x', true, nodes, s, false, Mk(s1, false, t, p, sib), uncle.(red := false), up);
      Up(Links(nodes), s, true, Mk(s1, false, t, p, sib), g, uncle.(red := false), up);
    }

    /** RB_INSERT_SUB with a black uncle, up to its first rotation: `x` is the inner grandchild. */
    method InsertBent(s: Side, x: Vma, ghost nodes: set<Vma>, ghost a: Shape, ghost b: Shape,
                      ghost p: Vma, ghost sib: Shape, ghost up: Path)
      returns (x': Vma)
      requires At(Links(nodes), Frame(Other(s), true, p, sib, up), Mk(s, true, a, x, b))
      modifies nodes`left, nodes`right, nodes`parent
      ensures x' == p && At(Links(nodes), Frame(s, true, x, b, up), Mk(s, true, sib, p, a))
    {
      x' := x.parent;
      ghost var t := Mk(s, true, a, x, b);
      Up(Links(nodes), Other(s), true, t, p, sib, up);
      MkFlip(s, true, sib, p, t);
      RotateAt(s, nodes, up, true, sib, x', true, a, x, b);
      Down(Links(nodes), s, true, Mk(s, true, sib, p, a), x, b, up);
    }

    /** RB_INSERT_SUB with a black uncle, the rest: `x` is the outer grandchild. */
    method InsertStraight(s: Side, x: Vma, ghost nodes: set<Vma>, ghost t: Shape,
                          ghost p: Vma, ghost sib: Shape, ghost g: Vma, ghost uncle: Shape, ghost up: Path)
      requires At(Links(nodes), Frame(s, true, p, sib, Frame(s, false, g, uncle, up)), t)
      requires t.Node? && t.node == x
      modifies nodes`red, nodes`left, nodes`right, nodes`parent
      ensures At(Links(nodes), Frame(s, false, p, Mk(s, true, sib, g, uncle), up), t)
    {
      var px := x.parent;
      PaintParent(px, false, nodes, s, true, t, sib, Frame(s, false, g, uncle, up));
      Up(Links(nodes), s, false, t, p, sib, Frame(s, false, g, uncle, up));
      var gx := px.parent;
      PaintParent(gx, true, nodes, s, false, Mk(s, false, t, p, sib), uncle, up);
      Up(Links(nodes), s, true, Mk(s, false, t, p, sib), g, uncle, up);
      RotateBackAt(s, nodes, up, true, false, t, p, sib, gx, uncle);
      Down(Links(nodes), s, false, t, p, Mk(s, true, sib, g, uncle), up);
    }

    /** RB_INSERT_SUB(s, Other(s)). */
    method InsertSub(s: Side, x: Vma, ghost nodes: set<Vma>, ghost c: Path, ghost t: Shape)
      returns (x': Vma, ghost c': Path, ghost t': Shape)
      requires At(Links(nodes), c, t) && InsertState(c, t) && t.node == x
      requires c.Frame? && c.red && c.up.Frame? && !c.up.red && c.up.side == s
      modifies nodes`red, nodes`left, nodes`right, nodes`parent
      ensures At(Links(nodes), c', t') && InsertState(c', t') && t'.node == x'
      ensures Around(c', t') == Around(c, t) && Depth(c') < Depth(c)
    {
      ghost var p, sib, g, uncle, up := c.node, c.sib, c.up.node, c.up.sib, c.up.up;
      WayToUncle(Links(nodes), c, t);
      WhichSide(Links(nodes), c, t, Other(s));
      var y := x.parent.parent.Child(Other(s));
      if y.red {
        RecolorKeeps(s, c.side, t, p, sib, g, uncle, up);
        x' := InsertRecolor(s, x, y, nodes, c.side, t, p, sib, g, uncle, up);
        c', t' := up, Recolored(s, c.side, t, p, sib, g, uncle);
      } else {
        x', c', t' := x, c, t;
        if x == x.parent.Child(Other(s)) {
          ghost var a, b := Kid(s, t), Kid(Other(s), t);
          BentKeeps(s, a, x, b, p, sib, g, uncle, up);
          x' := InsertBent(s, x, nodes, a, b, p, sib, c.up);
          c', t' := Frame(s, true, x, b, c.up), Mk(s, true, sib, p, a);
        }
        StraightKeeps(s, t', c'.node, c'.sib, g, uncle, up);
        InsertStraight(s, x', nodes, t', c'.node, c'.sib, g, uncle, up);
        c' := Frame(s, false, c'.node, Mk(s, true, c'.sib, g, uncle), up);
      }
    }

    /** The loop of rb_insert_binary: down to the hole for `node`, behind all nodes with its key. */
    method FindHole(node: Vma, ghost nodes: set<Vma>, ghost keys: map<Vma, int>)
      returns (y: Vma, ghost c: Path)
      requires At(Links(nodes), Top, shape) && node in nodes && keys == Keys(nodes) && SortedBy(keys, Contents())
      ensures Plug(c, Leaf) == shape && y == ContextNode(root, c) && y in nodes
      ensures Divides(keys, keys[node], Before(c), After(c))
      ensures c.Frame? ==> (c.side == Lft <==> Compare(c.node, node) > 0)
    {
      ghost var h := Links(nodes);
      y := root;
      var x := y.left;
      c := Top;
      ghost var t := shape;
      while x != nil
        invariant At(h, c, t) && Plug(c, t) == shape && SortedBy(keys, Inorder(shape))
        invariant t.Node? ==> t.node in nodes
        invariant x == RootOf(nil, t) && y == ContextNode(root, c)
        invariant Divides(keys, keys[node], Before(c), After(c))
        invariant c.Frame? ==> (c.side == Lft <==> Compare(c.node, node) > 0)
        decreases t
      {
        ghost var s := if keys[x] > keys[node] then Lft else Rgt;
        StepDown(h, keys, keys[node], c, t, s);
        y := x;
        x := if Compare(x, node) > 0 then x.left else x.right;
        c, t := Frame(s, t.red, t.node, Kid(Other(s), t), c), Kid(s, t);
      }
    }

    /** The start of rb_insert_binary. */
    method Unlink(node: Vma, ghost nodes: set<Vma>)
      requires At(Links(nodes), Top, shape) && node !in Repr()
      modifies node`left, node`right
      ensures At(Links(nodes), Top, shape) && node.left == node.right == nil
    {
      ghost var h := Links(nodes);
      node.left, node.right := nil, nil;
      AtFrame(h, Links(nodes), Top, shape);
    }

    /** rb_insert_binary. */
    method InsertBinary(node: Vma, ghost nodes: set<Vma>, ghost keys: map<Vma, int>)
      returns (ghost c: Path)
      requires At(Links(nodes), Top, shape) && node in nodes && keys == Keys(nodes) && SortedBy(keys, Contents())
      requires node in nodes && node !in Repr()
      modifies nodes`left, nodes`right, nodes`parent
      ensures Plug(c, Leaf) == shape && At(Links(nodes), c, Node(node.red, Leaf, node, Leaf))
      ensures Divides(keys, keys[node], Before(c), After(c))
    {
      Unlink(node, nodes);
      var y;
      y, c := FindHole(node, nodes, keys);
      Attach(y, node, nodes, c);
    }

    /** The end of rb_insert_binary: `node` goes into the hole below `y`. */
    method Attach(y: Vma, node: Vma, ghost nodes: set<Vma>, ghost c: Path)
      requires At(Links(nodes), Top, shape) && shape == Plug(c, Leaf) && y == ContextNode(root, c)
      requires node in nodes && node !in Repr() && node.left == node.right == nil
      requires c.Frame? ==> (c.side == Lft <==> Compare(c.node, node) > 0)
      modifies node`parent, y`left, y`right
      ensures At(Links(nodes), c, Node(node.red, Leaf, node, Leaf))
    {
      ghost var h := Links(nodes);
      ZoomIn(h, c, Leaf);
      PlugNodes(c, Leaf);
      assert y in h.cells && (c.Frame? ==> y in CNodes(c));
      Hang(y, node, nodes, if c.Top? then Lft else c.side);
      AttachAt(h, Links(nodes), c, node, node.red);
    }

    /** The writes of rb_insert_binary for the new leaf. */
    method Hang(y: Vma, node: Vma, ghost nodes: set<Vma>, ghost s: Side)
      requires y in nodes && node in nodes && y != node && (s == Lft <==> y == root || Compare(y, node) > 0)
      modifies node`parent, y`left, y`right
      ensures var h, h' := old(Links(nodes)), Links(nodes);
              && h'.nil == h.nil && h'.root == h.root && {y, node} <= h.cells.Keys && {y, node} <= h'.cells.Keys
              && h'.cells[node] == h.cells[node].(parent := y) && h'.cells[y] == h.cells[y].WithChild(s, node)
              && SameOn(h, h', nodes - {y, node})
    {
      node.parent := y;
      if y == root || Compare(y, node) > 0 {
        y.left := node;
      } else {
        y.right := node;
      }
    }

    /** The loop of rb_insert. */
    method InsertFixup(node: Vma, ghost nodes: set<Vma>, ghost c0: Path, ghost t0: Shape)
      returns (ghost c: Path, ghost t: Shape)
      requires At(Links(nodes), c0, t0) && InsertState(c0, t0) && t0.node == node
      modifies nodes`red, nodes`left, nodes`right, nodes`parent
      ensures At(Links(nodes), c, t) && InsertState(c, t) && CBlack(c) && Around(c, t) == Around(c0, t0)
    {
      var x := node;
      c, t := c0, t0;
      while x.parent.red
        invariant At(Links(nodes), c, t) && InsertState(c, t) && t.node == x
        invariant Around(c, t) == Around(c0, t0)
        decreases Depth(c)
      {
        Grandparent(c, t);
        WayToUncle(Links(nodes), c, t);
        if x.parent == x.parent.parent.left {
          x, c, t := InsertSub(Lft, x, nodes, c, t);
        } else {
          x, c, t := InsertSub(Rgt, x, nodes, c, t);
        }
      }
    }

    /** The end of rb_insert. */
    method BlackenRoot(ghost nodes: set<Vma>, ghost c: Path, ghost t: Shape)
      requires At(Links(nodes), c, t) && InsertState(c, t) && CBlack(c)
      modifies this`shape, nodes`red
      ensures At(Links(nodes), Top, shape) && RedBlack(shape) && Contents() == Around(c, t)
    {
      InsertDone(c, t);
      ZoomOut(Links(nodes), c, t);
      shape := Plug(c, t);
      Paint(root.left, false, nodes, Top, shape);
      shape := shape.(red := false);
    }

    /** rb_insert, within a set of nodes; `c` is the hole that the new node fills. */
    method InsertWithin(node: Vma, ghost nodes: set<Vma>, ghost keys: map<Vma, int>) returns (ghost c: Path)
      requires At(Links(nodes), Top, shape) && RedBlack(shape)
      requires node in nodes && keys == Keys(nodes) && SortedBy(keys, Contents()) && node !in Repr()
      modifies this`shape, nodes`red, nodes`left, nodes`right, nodes`parent
      ensures At(Links(nodes), Top, shape) && RedBlack(shape)
      ensures old(Contents()) == Before(c) + After(c) && Contents() == Before(c) + [node] + After(c)
      ensures Divides(keys, keys[node], Before(c), After(c))
    {
      c := InsertBinary(node, nodes, keys);
      Paint(node, true, nodes, c, Node(node.red, Leaf, node, Leaf));
      InsertStart(c, node);
      ghost var c', t' := InsertFixup(node, nodes, c, Node(true, Leaf, node, Leaf));
      BlackenRoot(nodes, c', t');
    }

    /** The tree after rb_insert, as a whole. */
    lemma {:induction false} Inserted(nodes: set<Vma>, shape0: Shape, before: seq<Vma>, node: Vma, after: seq<Vma>)
      requires At(Links(nodes), Top, shape) && RedBlack(shape) && nodes == Nodes(shape0) + {nil, root} + {node}
      requires Inorder(shape0) == before + after && Contents() == before + [node] + after
      ensures Valid() && Repr() == nodes
    {
      OneMore(shape0, shape, before, node, after);
      assert Nodes(shape) + {nil, root} == nodes;
    }

    /**
     rb_insert: the new node goes behind all nodes whose key is not larger, and in front of the others;
     the tree is red-black again.
     */
    method Insert(node: Vma) returns (ghost before: seq<Vma>, ghost after: seq<Vma>)
      requires Valid() && SortedBy(Keys(Repr() + {node}), Contents()) && node !in Repr()
      modifies this`shape
      modifies (Repr() + {node})`red, (Repr() + {node})`left, (Repr() + {node})`right, (Repr() + {node})`parent
      ensures Valid() && Repr() == old(Repr()) + {node}
      ensures old(Contents()) == before + after && Contents() == before + [node] + after
      ensures Divides(old(Keys(Repr() + {node})), old(node.vm_start), before, after)
    {
      ghost var shape0, nodes, keys := shape, Repr() + {node}, Keys(Repr() + {node});
      AtFrame(Links(Repr()), Links(nodes), Top, shape);
      ghost var c := InsertWithin(node, nodes, keys);
      before, after := Before(c), After(c);
      assert nodes == Nodes(shape0) + {nil, root} + {node};
      Inserted(nodes, shape0, before, node, after);
    }

    // ---------- rb_delete ----------

    /** RB_DELETE_FIXUP_SUB with a red sibling `w`, up to the point where the sibling is black. */
    method DeleteRedSibling(s: Side, w: Vma, px: Vma, ghost nodes: set<Vma>,
                            ghost t: Shape, ghost wl: Shape, ghost wr: Shape, ghost up: Path)
      requires At(Links(nodes), Frame(s, false, px, Mk(s, true, wl, w, wr), up), t)
      modifies nodes`red, nodes`left, nodes`right, nodes`parent
      ensures At(Links(nodes), Frame(s, true, px, wl, Frame(s, false, w, wr, up)), t)
      ensures nil.parent == old(nil.parent)
    {
      hide At;
      PaintSibling(w, false, nodes, s, false, t, px, Mk(s, true, wl, w, wr), up);
      PaintParent(px, true, nodes, s, false, t, Mk(s, false, wl, w, wr), up);
      Up(Links(nodes), s, true, t, px, Mk(s, false, wl, w, wr), up);
      RotateAt(s, nodes, up, true, t, px, false, wl, w, wr);
      Down(Links(nodes), s, false, Mk(s, true, t, px, wl), w, wr, up);
      Down(Links(nodes), s, true, t, px, wl, Frame(s, false, w, wr, up));
    }

    /** RB_DELETE_FIXUP_SUB with a black sibling `w` whose outer child is black: the rotation below it. */
    method RotateInner(s: Side, w: Vma, ghost nodes: set<Vma>,
                       ghost a: Shape, v: Vma, ghost b: Shape, ghost wr: Shape, ghost c: Path)
      requires At(Links(nodes), c, Mk(s, false, Mk(s, true, a, v, b), w, wr))
      modifies nodes`red, nodes`left, nodes`right, nodes`parent
      ensures At(Links(nodes), c, Mk(s, false, a, v, Mk(s, true, b, w, wr)))
      ensures nil.parent == old(nil.parent)
    {
      hide At;
      Down(Links(nodes), s, false, Mk(s, true, a, v, b), w, wr, c);
      Paint(v, false, nodes, Frame(s, false, w, wr, c), Mk(s, true, a, v, b));
      PaintParent(w, true, nodes, s, false, Mk(s, false, a, v, b), wr, c);
      Up(Links(nodes), s, true, Mk(s, false, a, v, b), w, wr, c);
      RotateBackAt(s, nodes, c, true, false, a, v, b, w, wr);
    }

    method DeleteInnerRed(s: Side, w: Vma, ghost px: Vma, ghost nodes: set<Vma>, ghost rp: bool, ghost t: Shape,
                          ghost a: Shape, v: Vma, ghost b: Shape, ghost wr: Shape, ghost up: Path)
      requires At(Links(nodes), Frame(s, rp, px, Mk(s, false, Mk(s, true, a, v, b), w, wr), up), t)
      modifies nodes`red, nodes`left, nodes`right, nodes`parent
      ensures At(Links(nodes), Frame(s, rp, px, Mk(s, false, a, v, Mk(s, true, b, w, wr)), up), t)
      ensures nil.parent == old(nil.parent)
    {
      ghost var c := Frame(Other(s), rp, px, t, up);
      Across(Links(nodes), s, rp, t, px, Mk(s, false, Mk(s, true, a, v, b), w, wr), up);
      RotateInner(s, w, nodes, a, v, b, wr, c);
      Across(Links(nodes), Other(s), rp, Mk(s, false, a, v, Mk(s, true, b, w, wr)), px, t, up);
    }

    /** The colour of the sibling's outer child. */
    method PaintNephew(n: Vma, v: bool, ghost nodes: set<Vma>, ghost s: Side, ghost red: bool, ghost t: Shape,
                       ghost p: Vma,
                       ghost rw: bool, ghost wl: Shape, ghost w: Vma, ghost wr: Shape, ghost up: Path)
      requires At(Links(nodes), Frame(s, red, p, Mk(s, rw, wl, w, wr), up), t) && wr.Node? && wr.node == n
      modifies nodes`red
      ensures At(Links(nodes), Frame(s, red, p, Mk(s, rw, wl, w, wr.(red := v)), up), t)
    {
      ghost var c := Frame(Other(s), red, p, t, up);
      Across(Links(nodes), s, red, t, p, Mk(s, rw, wl, w, wr), up);
      Down(Links(nodes), s, rw, wl, w, wr, c);
      PaintSibling(n, v, nodes, s, rw, wl, w, wr, c);
      Up(Links(nodes), s, rw, wl, w, wr.(red := v), c);
      Across(Links(nodes), Other(s), red, Mk(s, rw, wl, w, wr.(red := v)), p, t, up);
    }

    /** RB_DELETE_FIXUP_SUB with a black sibling whose outer child is red: the last rotation. */
    method DeleteOuterRed(s: Side, w: Vma, px: Vma, ghost nodes: set<Vma>, ghost rp: bool,
                          ghost t: Shape, ghost wl: Shape, ghost wr: Shape, ghost up: Path)
      requires At(Links(nodes), Frame(s, rp, px, Mk(s, false, wl, w, wr), up), t) && wr.Node? && px.red == rp
      requires w.Child(Other(s)) == wr.node
      modifies nodes`red, nodes`left, nodes`right, nodes`parent
      ensures At(Links(nodes), up, Mk(s, rp, Mk(s, false, t, px, wl), w, wr.(red := false)))
    {
      PaintSibling(w, px.red, nodes, s, rp, t, px, Mk(s, false, wl, w, wr), up);
      PaintParent(px, false, nodes, s, rp, t, Mk(s, rp, wl, w, wr), up);
      PaintNephew(w.Child(Other(s)), false, nodes, s, false, t, px, rp, wl, w, wr, up);
      Up(Links(nodes), s, false, t, px, Mk(s, rp, wl, w, wr.(red := false)), up);
      RotateAt(s, nodes, up, false, t, px, rp, wl, w, wr.(red := false));
    }

    /** What is still to be done by rb_delete_fixup. */
    ghost function Work(c: Path, t: Shape): nat {
      if IsBlack(t) then 1 + Depth(c) else 0
    }

    /** A black sibling `w` with a red child gets a red outer child, if need be by a rotation. */
    method MakeOuterRed(s: Side, w: Vma, px: Vma, ghost nodes: set<Vma>, ghost rp: bool,
                        ghost t: Shape, ghost wl: Shape, ghost wr: Shape, ghost up: Path)
      returns (w': Vma, ghost wl': Shape, ghost wr': Shape)
      requires At(Links(nodes), Frame(s, rp, px, Mk(s, false, wl, w, wr), up), t)
      requires DeleteState(Frame(s, rp, px, Mk(s, false, wl, w, wr), up), t) && !(IsBlack(wl) && IsBlack(wr))
      modifies nodes`red, nodes`left, nodes`right, nodes`parent
      ensures At(Links(nodes), Frame(s, rp, px, Mk(s, false, wl', w', wr'), up), t) && !IsBlack(wr')
      ensures DeleteState(Frame(s, rp, px, Mk(s, false, wl', w', wr'), up), t)
      ensures Around(Frame(s, rp, px, Mk(s, false, wl', w', wr'), up), t)
           == Around(Frame(s, rp, px, Mk(s, false, wl, w, wr), up), t)
      ensures nil.parent == old(nil.parent)
    {
      hide At, DeleteState, Around;
      w', wl', wr' := w, wl, wr;
      WayToSibling(Links(nodes), Frame(s, rp, px, Mk(s, false, wl, w, wr), up), t);
      if !w.Child(Other(s)).red {
        var v := w.Child(s);
        ghost var a, b := Kid(s, wl), Kid(Other(s), wl);
        assert wl == Mk(s, true, a, v, b);
        InnerRed(s, rp, t, px, a, v, b, w, wr, up);
        DeleteInnerRed(s, w, px, nodes, rp, t, a, v, b, wr, up);
        wl', wr' := a, Mk(s, true, b, w, wr);
        WayToSibling(Links(nodes), Frame(s, rp, px, Mk(s, false, wl', v, wr'), up), t);
        w' := px.Child(Other(s));
      }
    }

    /** RB_DELETE_FIXUP_SUB with a black sibling that has a red child: at most two rotations settle it. */
    method DeleteRotate(s: Side, w: Vma, px: Vma, ghost nodes: set<Vma>, ghost rp: bool,
                        ghost t: Shape, ghost wl: Shape, ghost wr: Shape, ghost up: Path)
      returns (ghost t': Shape)
      requires At(Links(nodes), Frame(s, rp, px, Mk(s, false, wl, w, wr), up), t) && IsBlack(t)
      requires DeleteState(Frame(s, rp, px, Mk(s, false, wl, w, wr), up), t) && !(IsBlack(wl) && IsBlack(wr))
      modifies nodes`red, nodes`left, nodes`right, nodes`parent
      ensures At(Links(nodes), up, t') && Settled(up, t')
      ensures Around(up, t') == Around(Frame(s, rp, px, Mk(s, false, wl, w, wr), up), t)
      ensures t'.Node? && Kid(s, t').Node? && Kid(s, t').node == px && !Kid(s, t').red
    {
      hide At, DeleteState, Settled, Around;
      ghost var wl', wr';
      var w';
      w', wl', wr' := MakeOuterRed(s, w, px, nodes, rp, t, wl, wr, up);
      WayToSibling(Links(nodes), Frame(s, rp, px, Mk(s, false, wl', w', wr'), up), t);
      OuterRed(s, rp, t, px, wl', w', wr', up);
      DeleteOuterRed(s, w', px, nodes, rp, t, wl', wr', up);
      t' := Mk(s, rp, Mk(s, false, t, px, wl'), w', wr'.(red := false));
    }

    /** RB_DELETE_FIXUP_SUB with a black sibling that has no red child. */
    method DeleteRecolor(s: Side, w: Vma, ghost px: Vma, ghost nodes: set<Vma>, ghost rp: bool,
                         ghost t: Shape, ghost wl: Shape, ghost wr: Shape, ghost up: Path)
      requires At(Links(nodes), Frame(s, rp, px, Mk(s, false, wl, w, wr), up), t) && IsBlack(t)
      requires DeleteState(Frame(s, rp, px, Mk(s, false, wl, w, wr), up), t) && IsBlack(wl) && IsBlack(wr)
      modifies nodes`red
      ensures var t' := Mk(s, rp, t, px, Mk(s, true, wl, w, wr));
              && At(Links(nodes), up, t') && DeleteState(up, t')
              && Around(up, t') == Around(Frame(s, rp, px, Mk(s, false, wl, w, wr), up), t)
    {
      BlackSibling(s, rp, t, px, wl, w, wr, up);
      PaintSibling(w, true, nodes, s, rp, t, px, Mk(s, false, wl, w, wr), up);
      Up(Links(nodes), s, rp, t, px, Mk(s, true, wl, w, wr), up);
    }

    /** RB_DELETE_FIXUP_SUB once the sibling `w` is black. */
    method DeleteSubBlack(s: Side, x: Vma, w: Vma, top: Vma, ghost nodes: set<Vma>, ghost rp: bool,
                          ghost t: Shape, ghost px: Vma, ghost sib: Shape, ghost up: Path)
      returns (x': Vma, ghost done: bool, ghost t': Shape)
      requires At(Links(nodes), Frame(s, rp, px, sib, up), t) && DeleteState(Frame(s, rp, px, sib, up), t)
      requires IsBlack(t) && sib.Node? && sib.node == w && !sib.red && x.parent == px
      modifies nodes`red, nodes`left, nodes`right, nodes`parent
      ensures At(Links(nodes), up, t') && Around(up, t') == Around(Frame(s, rp, px, sib, up), t) && t'.Node?
      ensures !done ==> DeleteState(up, t') && x' == px == t'.node && t'.red == rp
      ensures done ==> Settled(up, t') && x' == top && Kid(s, t').Node? && Kid(s, t').node == px && !Kid(s, t').red
    {
      ghost var wl, wr := Kid(s, sib), Kid(Other(s), sib);
      assert sib == Mk(s, false, wl, w, wr);
      WayToSibling(Links(nodes), Frame(s, rp, px, sib, up), t);
      if !w.Child(s).red && !w.Child(Other(s)).red {
        DeleteRecolor(s, w, px, nodes, rp, t, wl, wr, up);
        x' := x.parent;
        done, t' := false, Mk(s, rp, t, px, Mk(s, true, wl, w, wr));
      } else {
        t' := DeleteRotate(s, w, x.parent, nodes, rp, t, wl, wr, up);
        x', done := top, true;
      }
    }

    /** The start of RB_DELETE_FIXUP_SUB: a red sibling is rotated away, so that the sibling is black. */
    method MakeSiblingBlack(s: Side, x: Vma, ghost nodes: set<Vma>, ghost c: Path, ghost t: Shape)
      returns (w: Vma, ghost c': Path)
      requires At(Links(nodes), c, t) && DeleteState(c, t) && IsBlack(t)
      requires c.Frame? && c.side == s && x == RootOf(nil, t) && x.parent == c.node
      modifies nodes`red, nodes`left, nodes`right, nodes`parent
      ensures At(Links(nodes), c', t) && DeleteState(c', t) && Around(c', t) == Around(c, t)
      ensures c'.Frame? && c'.side == s && c'.node == c.node
      ensures c'.sib.Node? && c'.sib.node == w && !c'.sib.red && x.parent == c.node
      ensures c'.up == c.up || (c'.red && c'.up.Frame? && c'.up.up == c.up)
    {
      ghost var p, sib, up := c.node, c.sib, c.up;
      Sibling(s, c.red, p, sib, up, t);
      WayToSibling(Links(nodes), c, t);
      w, c' := x.parent.Child(Other(s)), c;
      if w.red {
        ghost var wl, wr := Kid(s, sib), Kid(Other(s), sib);
        assert sib == Mk(s, true, wl, w, wr);
        RedSibling(s, t, p, wl, w, wr, up);
        DeleteRedSibling(s, w, x.parent, nodes, t, wl, wr, up);
        c' := Frame(s, true, p, wl, Frame(s, false, w, wr, up));
        WayToSibling(Links(nodes), c', t);
        w := x.parent.Child(Other(s));
      }
    }

    /** RB_DELETE_FIXUP_SUB(s, Other(s)); `top` is what the fixup took to be the root when it began. */
    method DeleteSub(s: Side, x: Vma, top: Vma, ghost nodes: set<Vma>, ghost c: Path, ghost t: Shape)
      returns (x': Vma, ghost done: bool, ghost c': Path, ghost t': Shape)
      requires At(Links(nodes), c, t) && DeleteState(c, t) && IsBlack(t)
      requires c.Frame? && c.side == s && x == RootOf(nil, t) && x.parent == c.node
      modifies nodes`red, nodes`left, nodes`right, nodes`parent
      ensures At(Links(nodes), c', t') && Around(c', t') == Around(c, t) && t'.Node?
      ensures !done ==> DeleteState(c', t') && x' == t'.node
      ensures !done && IsBlack(t') ==> c' == c.up && t'.node == c.node
      ensures done ==> Settled(c', t') && x' == top && Kid(s, t').Node? && Kid(s, t').node == c.node && !Kid(s, t').red
      ensures c' == c.up || (c'.Frame? && c'.up == c.up)
    {
      ghost var c1;
      var w;
      w, c1 := MakeSiblingBlack(s, x, nodes, c, t);
      x', done, t' := DeleteSubBlack(s, x, w, top, nodes, c1.red, t, c1.node, c1.sib, c1.up);
      c' := c1.up;
    }

    /** A subtree has the same root as the whole tree only if it is the whole tree. */
    lemma {:induction false} TopIsRoot(h: Store<Vma>, c: Path, t: Shape)
      requires At(h, c, t)
      ensures RootOf(h.nil, t) == RootOf(h.nil, Plug(c, t)) <==> c.Top?
    {
      if c.Frame? {
        PlugRoot(h.nil, c, t, t);
        assert t.Node? ==> t.node in Nodes(t);
      }
    }

    /** A subtree that does not reach the top leaves the root alone, and one that does contains the old root. */
    lemma {:induction false} StillTop(c: Path, t: Shape, c': Path, t': Shape)
      requires c.Frame? && t'.Node? && (c' == c.up || (c'.Frame? && c'.up == c.up))
      ensures c.up.Frame? ==> RootOf(nil, Plug(c', t')) == RootOf(nil, Plug(c, t))
      ensures c.up.Top? ==> RootOf(nil, Plug(c, t)) == c.node
      ensures c' == c.up && t'.node == c.node ==> RootOf(nil, Plug(c', t')) == RootOf(nil, Plug(c, t))
    {
      var u := Mk(c.side, c.red, t, c.node, c.sib);
      if c' == c.up {
        if t'.node == c.node {
          PlugRootSame(nil, c.up, u, t');
        } else if c.up.Frame? {
          PlugRoot(nil, c.up, u, t');
        }
      } else if c.up.Frame? {
        PlugRoot(nil, c.up, u, Mk(c'.side, c'.red, t', c'.node, c'.sib));
      }
    }

    /** When the last rotation has settled the tree, the node that was its root before is black. */
    lemma {:induction false} OldRootBlack(h: Store<Vma>, s: Side, c: Path, t: Shape, c': Path, t': Shape, top: Vma)
      requires At(h, c', t') && Settled(c', t') && h.nil == nil
      requires c.Frame? && top == RootOf(nil, Plug(c, t)) && (c' == c.up || (c'.Frame? && c'.up == c.up))
      requires t'.Node? && Kid(s, t').Node? && Kid(s, t').node == c.node && !Kid(s, t').red
      ensures top in h.cells && !h.cells[top].red
    {
      StillTop(c, t, c', t');
      if c.up.Top? {
        assert Rep(h, Kid(s, t'), t'.node);
      } else {
        SettledPlug(c', t');
        ZoomOut(h, c', t');
      }
    }

    /** One round of the loop in rb_delete_fixup. */
    method DeleteRound(x: Vma, top: Vma, ghost nodes: set<Vma>, ghost c: Path, ghost t: Shape)
      returns (x': Vma, ghost done: bool, ghost c': Path, ghost t': Shape)
      requires At(Links(nodes), c, t) && DeleteState(c, t) && IsBlack(t) && c.Frame?
      requires x == RootOf(nil, t) && x.parent == c.node && top == RootOf(nil, Plug(c, t))
      modifies nodes`red, nodes`left, nodes`right, nodes`parent
      ensures At(Links(nodes), c', t') && Around(c', t') == Around(c, t) && t'.Node?
      ensures !done ==> DeleteState(c', t') && x' == t'.node && (IsBlack(t') ==> Depth(c') < Depth(c))
      ensures !done && IsBlack(t') ==> top == RootOf(nil, Plug(c', t'))
      ensures done ==> Settled(c', t') && x' == top && top in nodes && !top.red
    {
      Sibling(c.side, c.red, c.node, c.sib, c.up, t);
      WayToSibling(Links(nodes), c, t);
      if x == x.parent.left {
        x', done, c', t' := DeleteSub(Lft, x, top, nodes, c, t);
      } else {
        x', done, c', t' := DeleteSub(Rgt, x, top, nodes, c, t);
      }
      StillTop(c, t, c', t');
      if done {
        OldRootBlack(Links(nodes), c.side, c, t, c', t', top);
      }
    }

    /** rb_delete_fixup. The tree is settled at the end, although `top` may no longer be its root then. */
    method DeleteFixup(node: Vma, ghost nodes: set<Vma>, ghost c0: Path, ghost t0: Shape)
      returns (ghost c: Path, ghost t: Shape)
      requires At(Links(nodes), c0, t0) && DeleteState(c0, t0)
      requires node == RootOf(nil, t0) && node.parent == ContextNode(root, c0)
      modifies nodes`red, nodes`left, nodes`right, nodes`parent
      ensures At(Links(nodes), c, t) && Settled(c, t) && Around(c, t) == Around(c0, t0)
    {
      ZoomOut(Links(nodes), c0, t0);
      var x, top := node, root.left;
      ghost var done := false;
      c, t := c0, t0;
      while x != top && !x.red
        invariant At(Links(nodes), c, t) && Around(c, t) == Around(c0, t0)
        invariant !done ==> DeleteState(c, t) && x == RootOf(nil, t) && x.parent == ContextNode(root, c)
        invariant !done && IsBlack(t) ==> top == RootOf(nil, Plug(c, t))
        invariant done ==> Settled(c, t) && x == top && top in nodes && !top.red
        decreases if done then 0 else Work(c, t)
      {
        TopIsRoot(Links(nodes), c, t);
        x, done, c, t := DeleteRound(x, top, nodes, c, t);
      }
      if !done && !x.red {
        TopIsRoot(Links(nodes), c, t);
      }
      c, t := SettleTop(x, nodes, c, t, done);
    }

    /** The end of rb_delete_fixup. */
    method SettleTop(x: Vma, ghost nodes: set<Vma>, ghost c0: Path, ghost t0: Shape, ghost done: bool)
      returns (ghost c: Path, ghost t: Shape)
      requires At(Links(nodes), c0, t0) && x in nodes
      requires if done then Settled(c0, t0) && !x.red
               else DeleteState(c0, t0) && x == RootOf(nil, t0) && (IsBlack(t0) ==> c0.Top?)
      modifies nodes`red
      ensures At(Links(nodes), c, t) && Settled(c, t) && Around(c, t) == Around(c0, t0)
    {
      ghost var h := Links(nodes);
      c, t := c0, t0;
      if !done {
        DeleteDone(c0, t0);
        if !IsBlack(t0) {
          RecolorAt(h, c0, t0, false);
          t := t0.(red := false);
        }
      }
      SetRed(x, false, nodes);
      assert !h.cells[x].red ==> Links(nodes) == h;
    }

    // ---------- rb_tree_successor, rb_tree_predecessor ----------

    /** Down along the children on side `s`: the end of a subtree. */
    method Extreme(s: Side, x: Vma, ghost nodes: set<Vma>, ghost c0: Path, ghost t0: Shape)
      returns (y: Vma, ghost c: Path, ghost t: Shape)
      requires At(Links(nodes), c0, t0) && t0.Node? && t0.node == x
      ensures At(Links(nodes), Join(c, c0), t) && Plug(c, t) == t0
      ensures t.Node? && t.node == y && Kid(s, t).Leaf? && y in nodes
      ensures if s == Lft then Before(c) == [] else After(c) == []
    {
      y, c, t := x, Top, t0;
      assert Links(nodes).cells[y].Child(s) == RootOf(nil, Kid(s, t));
      while y.Child(s) != nil
        invariant At(Links(nodes), Join(c, c0), t) && Plug(c, t) == t0
        invariant t.Node? && t.node == y && y in nodes
        invariant Links(nodes).cells[y].Child(s) == RootOf(nil, Kid(s, t))
        invariant if s == Lft then Before(c) == [] else After(c) == []
        decreases t
      {
        y := y.Child(s);
        Down(Links(nodes), s, t.red, Kid(s, t), t.node, Kid(Other(s), t), Join(c, c0));
        c, t := Frame(s, t.red, t.node, Kid(Other(s), t), c), Kid(s, t);
      }
    }

    /**
     Up as long as the subtree hangs on side `s`; what lies beyond it on that side stays the same. Only on the
     way to the predecessor is the top tested for: the right child of the root sentinel is nil.
     */
    method Climb(s: Side, x0: Vma, ghost nodes: set<Vma>, ghost c0: Path, ghost t0: Shape)
      returns (y: Vma)
      requires At(Links(nodes), c0, t0) && t0.Node? && t0.node == x0
      ensures s == Rgt ==> if y == root then After(c0) == [] else After(c0) != [] && y == After(c0)[0]
      ensures s == Lft ==> if y == root then Before(c0) == [] else Before(c0) != [] && y == Before(c0)[|Before(c0)| - 1]
    {
      var x := x0;
      ghost var c, t := c0, t0;
      y := x.parent;
      WhichSide(Links(nodes), c, t, s);
      while x == y.Child(s)
        invariant At(Links(nodes), c, t) && t.Node? && t.node == x && y == ContextNode(root, c) && y in nodes
        invariant y.Child(s) == x <==> if c.Top? then s == Lft else c.side == s
        invariant if s == Rgt then After(c) == After(c0) else Before(c) == Before(c0)
        decreases c
      {
        if s == Lft && y == root {
          break;
        }
        Up(Links(nodes), c.side, c.red, t, c.node, c.sib, c.up);
        t, c := Mk(c.side, c.red, t, c.node, c.sib), c.up;
        WhichSide(Links(nodes), c, t, s);
        x := y;
        y := y.parent;
      }
    }

    /** rb_tree_successor. In the first case `c`, `t` is the place of the result below `node`. */
    method Successor(node: Vma, ghost nodes: set<Vma>, ghost c0: Path, ghost t0: Shape)
      returns (y: Vma, ghost c: Path, ghost t: Shape)
      requires At(Links(nodes), c0, t0) && t0.Node? && t0.node == node
      ensures y == var rest := Inorder(t0.right) + After(c0); if rest == [] then nil else rest[0]
      ensures t0.right.Node? ==>
                && At(Links(nodes), Join(c, Frame(Rgt, t0.red, node, t0.left, c0)), t) && Plug(c, t) == t0.right
                && t.Node? && t.node == y && t.left.Leaf? && Before(c) == [] && y in nodes
    {
      assert t0.right.Node? ==> t0.right.node in Nodes(t0);
      c, t := c0, t0;
      if node.right != nil {
        Down(Links(nodes), Rgt, t0.red, t0.right, node, t0.left, c0);
        y, c, t := Extreme(Lft, node.right, nodes, Frame(Rgt, t0.red, node, t0.left, c0), t0.right);
        ExtremeInorder(Lft, c, t);
      } else {
        y := Climb(Rgt, node, nodes, c0, t0);
        if y == root {
          y := nil;
        }
      }
    }

    /** rb_tree_predecessor. */
    method Predecessor(node: Vma, ghost nodes: set<Vma>, ghost c0: Path, ghost t0: Shape) returns (y: Vma)
      requires At(Links(nodes), c0, t0) && t0.Node? && t0.node == node
      ensures y == var rest := Before(c0) + Inorder(t0.left); if rest == [] then nil else rest[|rest| - 1]
    {
      assert t0.left.Node? ==> t0.left.node in Nodes(t0);
      if node.left != nil {
        Down(Links(nodes), Lft, t0.red, t0.left, node, t0.right, c0);
        ghost var c, t;
        y, c, t := Extreme(Rgt, node.left, nodes, Frame(Lft, t0.red, node, t0.right, c0), t0.left);
        ExtremeInorder(Rgt, c, t);
      } else {
        y := Climb(Lft, node, nodes, c0, t0);
        if y == root {
          y := nil;
        }
      }
    }

    /** rb_node_next: the following node in order, or null. */
    method Next(node: Vma) returns (r: Vma?, ghost before: seq<Vma>, ghost after: seq<Vma>)
      requires Valid() && node in Nodes(shape)
      ensures Contents() == before + [node] + after
      ensures r == if after == [] then null else after[0]
    {
      ghost var place := Locate(Top, shape, node);
      ghost var c, t := place.0, place.1;
      ZoomIn(Links(Repr()), c, t);
      WithoutSplit(c, t);
      before, after := Before(c) + Inorder(t.left), Inorder(t.right) + After(c);
      ghost var c', t';
      var y;
      y, c', t' := Successor(node, Repr(), c, t);
      InorderNodes(shape);
      assert after != [] ==> after[0] in Contents();
      r := if y != nil then y else null;
    }

    /** rb_node_prev: the preceding node in order, or null. */
    method Prev(node: Vma) returns (r: Vma?, ghost before: seq<Vma>, ghost after: seq<Vma>)
      requires Valid() && node in Nodes(shape)
      ensures Valid() && Contents() == old(Contents()) == before + [node] + after
      ensures r == if before == [] then null else before[|before| - 1]
    {
      ghost var place := Locate(Top, shape, node);
      ghost var c, t := place.0, place.1;
      ZoomIn(Links(Repr()), c, t);
      WithoutSplit(c, t);
      before, after := Before(c) + Inorder(t.left), Inorder(t.right) + After(c);
      var y := Predecessor(node, Repr(), c, t);
      InorderNodes(shape);
      assert before != [] ==> before[|before| - 1] in Contents();
      r := if y != nil then y else null;
    }

    // ---------- rb_delete ----------

    /** Node `x` gets the parent of `y`, and takes its place there. */
    method LinkPast(y: Vma, x: Vma, ghost nodes: set<Vma>)
      requires {y, x, y.parent} <= nodes && y.parent !in {x, y} && x != y
      modifies x`parent, y.parent`left, y.parent`right
      ensures Detaches(old(Links(nodes)), Links(nodes), y, x)
    {
      x.parent := y.parent;
      if y == y.parent.left {
        y.parent.left := x;
      } else {
        y.parent.right := x;
      }
    }

    /** Node `y`, which has at most one child, is linked out; `x` is what takes its place. */
    method Detach(y: Vma, ghost nodes: set<Vma>, ghost c: Path, ghost t: Shape) returns (x: Vma)
      requires At(Links(nodes), c, t) && t.Node? && t.node == y && (t.left.Leaf? || t.right.Leaf?)
      modifies nodes`parent, nodes`left, nodes`right
      ensures At(Links(nodes), c, Remaining(t)) && x == RootOf(nil, Remaining(t)) && x.parent == ContextNode(root, c)
    {
      ghost var h := Links(nodes);
      DetachPlaces(h, c, t, Remaining(t));
      assert h.cells[y] == Cell(y.red, y.parent, y.left, y.right);
      assert t.left.Node? ==> t.left.node in Nodes(t);
      x := if y.left != nil then y.left else y.right;
      LinkPast(y, x, nodes);
      assert Links(nodes).cells[x].parent == ContextNode(root, c);
      DetachesAt(h, Links(nodes), c, t, Remaining(t));
    }

    /** The second part of rb_delete: `y` is put in the place of `z`, and `*y = *z`. */
    method TakePlace(z: Vma, y: Vma, ghost nodes: set<Vma>)
      requires Replaceable(Links(nodes), z, y)
      modifies nodes`red, nodes`parent, nodes`left, nodes`right
      ensures Replaces(old(Links(nodes)), Links(nodes), z, y)
    {
      hide Inorder, At, Replaceable, Redirected, Replaces;
      ghost var h := Links(nodes);
      Redirect(z, y, nodes);
      RedirectedReplaces(h, Links(nodes), z, y);
      CopyNode(z, y, nodes);
    }

    /** The neighbours of `z` get `y` in its place. */
    method Redirect(z: Vma, y: Vma, ghost nodes: set<Vma>)
      requires Replaceable(Links(nodes), z, y)
      modifies nodes`parent, nodes`left, nodes`right
      ensures Redirected(old(Links(nodes)), Links(nodes), z, y)
      ensures z in nodes && y in nodes && y != z
    {
      hide Inorder, At;
      ghost var h := Links(nodes);
      assert h.cells[z] == Cell(z.red, z.parent, z.left, z.right) && {z, z.parent, z.left, z.right, y} <= nodes;
      if z == z.parent.left {
        z.parent.left := y;
      } else {
        z.parent.right := y;
      }
      z.left.parent := y;
      z.right.parent := y;
    }

    /** `*y = *z`. */
    method CopyNode(z: Vma, y: Vma, ghost nodes: set<Vma>)
      requires z in nodes && y in nodes && y != z
      modifies y`red, y`parent, y`left, y`right
      ensures Links(nodes) == old(PutCell(Links(nodes), y, Links(nodes).cells[z]))
    {
      y.red, y.parent, y.left, y.right := z.red, z.parent, z.left, z.right;
    }

    method Replace(z: Vma, y: Vma, ghost nodes: set<Vma>, ghost c: Path, ghost red: bool, ghost l: Shape,
                   ghost r: Shape)
      requires At(Links(nodes), c, Node(red, l, z, r)) && l.Node?
      requires y in nodes && y !in CNodes(c) + Nodes(Node(red, l, z, r)) + {nil, root}
      modifies nodes`red, nodes`parent, nodes`left, nodes`right
      ensures At(Links(nodes), c, Node(red, l, y, r))
      ensures nil.parent == if r.Leaf? then y else old(nil.parent)
    {
      ghost var h := Links(nodes);
      ReplacePlaces(h, c, red, l, z, r, y);
      TakePlace(z, y, nodes);
      ReplacesAt(h, Links(nodes), c, red, l, z, r, y);
      assert l.node in Nodes(l) && (r.Node? ==> r.node in Nodes(r));
      assert nil.parent == Links(nodes).cells[nil].parent;
    }

    /** What is true between the two parts of rb_delete: only the balance may be missing. */
    ghost predicate Unlinked(nodes: set<Vma>, x: Vma, fix: bool, c: Path, t: Shape)
      reads nodes, x, root
    {
      && At(Links(nodes), c, t) && x == RootOf(nil, t) && x.parent == ContextNode(root, c)
      && if fix then DeleteState(c, t) else Settled(c, t)
    }

    /** rb_delete of a node that has at most one child, up to the fixup. */
    method UnlinkOuter(z: Vma, ghost nodes: set<Vma>, ghost c: Path, ghost t: Shape) returns (x: Vma, fix: bool)
      requires At(Links(nodes), c, t) && RedBlack(Plug(c, t))
      requires t.Node? && t.node == z && (t.left.Leaf? || t.right.Leaf?)
      modifies nodes`parent, nodes`left, nodes`right
      ensures Unlinked(nodes, x, fix, c, Remaining(t)) && Around(c, Remaining(t)) == Without(c, t)
    {
      OuterUnlinked(c, t);
      assert Links(nodes).cells[z].red == z.red;
      fix := !z.red;
      x := Detach(z, nodes, c, t);
    }

    /** The successor `y` of `z` is linked out and takes the place of `z`. */
    method UnlinkInner(z: Vma, y: Vma, ghost nodes: set<Vma>, ghost c: Path, ghost t: Shape, ghost c1: Path,
                       ghost t1: Shape)
      returns (x: Vma, fix: bool)
      requires t.Node? && t.node == z && t.left.Node? && t.right == Plug(c1, t1)
      requires At(Links(nodes), Join(c1, Frame(Rgt, t.red, z, t.left, c)), t1) && RedBlack(Plug(c, t))
      requires t1.Node? && t1.node == y && t1.left.Leaf? && Before(c1) == [] && y in nodes
      modifies nodes`red, nodes`parent, nodes`left, nodes`right
      ensures Unlinked(nodes, x, fix, Join(c1, Frame(Rgt, t.red, y, t.left, c)), t1.right)
      ensures Around(Join(c1, Frame(Rgt, t.red, y, t.left, c)), t1.right) == Without(c, t)
    {
      hide RedBlack, Inorder, Apart;
      hide Around, Without;
      InnerUnlinked(c, t.red, t.left, z, c1, t1.red, y, t1.right);
      InnerUnlinkedOrder(c, t.red, t.left, z, c1, t1.red, y, t1.right);
      PlaceApart(Links(nodes), c1, t.red, z, t.left, c, t1);
      assert Links(nodes).cells[y].red == y.red;
      fix := !y.red;
      x := Detach(y, nodes, Join(c1, Frame(Rgt, t.red, z, t.left, c)), t1);
      ghost var r := Plug(c1, t1.right);
      if c1.Frame? {
        PlugIsNode(c1.up, Mk(c1.side, c1.red, t1.right, c1.node, c1.sib));
      }
      RegroupOut(Links(nodes), c1, t.red, z, t.left, c, t1.right);
      Replace(z, y, nodes, c, t.red, t.left, r);
      RegroupIn(Links(nodes), c1, t.red, y, t.left, c, t1.right);
    }

    /** rb_delete up to the fixup: `c'`, `t'` is the place where the balance may be missing. */
    method UnlinkNode(z: Vma, ghost nodes: set<Vma>, ghost c: Path, ghost t: Shape)
      returns (x: Vma, fix: bool, ghost c': Path, ghost t': Shape)
      requires At(Links(nodes), c, t) && RedBlack(Plug(c, t)) && t.Node? && t.node == z
      modifies nodes`red, nodes`parent, nodes`left, nodes`right
      ensures Unlinked(nodes, x, fix, c', t') && Around(c', t') == Without(c, t)
    {
      assert Links(nodes).cells[z].left == z.left && Links(nodes).cells[z].right == z.right;
      assert t.left.Node? ==> t.left.node in Nodes(t);
      assert t.right.Node? ==> t.right.node in Nodes(t);
      if z.left == nil || z.right == nil {
        x, fix := UnlinkOuter(z, nodes, c, t);
        c', t' := c, Remaining(t);
      } else {
        ghost var c1, t1;
        var y;
        y, c1, t1 := Successor(z, nodes, c, t);
        x, fix := UnlinkInner(z, y, nodes, c, t, c1, t1);
        c', t' := Join(c1, Frame(Rgt, t.red, y, t.left, c)), t1.right;
      }
    }

    /** rb_delete, at a given place of the node. */
    method DeleteWithin(z: Vma, ghost nodes: set<Vma>, ghost c: Path, ghost t: Shape)
      returns (ghost c': Path, ghost t': Shape)
      requires At(Links(nodes), c, t) && RedBlack(Plug(c, t)) && t.Node? && t.node == z
      modifies nodes`red, nodes`parent, nodes`left, nodes`right
      ensures At(Links(nodes), c', t') && Settled(c', t') && Around(c', t') == Without(c, t)
    {
      var x, fix;
      x, fix, c', t' := UnlinkNode(z, nodes, c, t);
      if fix {
        c', t' := DeleteFixup(x, nodes, c', t');
      }
    }

    /** rb_delete: exactly the given node leaves the tree, which is red-black again. */
    method Delete(node: Vma) returns (ghost before: seq<Vma>, ghost after: seq<Vma>)
      requires Valid() && node in Nodes(shape)
      modifies this`shape, Repr()`red, Repr()`left, Repr()`right, Repr()`parent
      ensures Valid() && old(Repr()) == Repr() + {node} && node !in Repr()
      ensures old(Contents()) == before + [node] + after && Contents() == before + after
    {
      ghost var nodes, place := Repr(), Locate(Top, shape, node);
      ghost var c, t := place.0, place.1;
      ZoomIn(Links(nodes), c, t);
      before, after := Before(c) + Inorder(t.left), Inorder(t.right) + After(c);
      WithoutSplit(c, t);
      assert node in Nodes(t);
      OnlyOnce(c, t);
      c, t := DeleteWithin(node, nodes, c, t);
      FinishDelete(nodes, node, c, t, before, after);
    }

    /** The tree after rb_delete, as a whole. */
    ghost method FinishDelete(nodes: set<Vma>, node: Vma, c: Path, t: Shape, before: seq<Vma>, after: seq<Vma>)
      requires At(Links(nodes), c, t) && Settled(c, t) && Around(c, t) == before + after
      requires Contents() == before + [node] + after && nodes == Repr()
      requires node !in Elements(before + after) + {nil, root}
      modifies this`shape
      ensures Valid() && old(Repr()) == Repr() + {node} && node !in Repr() && Contents() == before + after
    {
      hide RedBlack, Inorder;
      hide At, Around, Settled;
      SettledPlug(c, t);
      ZoomOut(Links(nodes), c, t);
      OneMore(Plug(c, t), shape, before, node, after);
      shape := Plug(c, t);
      InorderNodes(shape);
      AtFrame(Links(nodes), Links(Repr()), Top, shape);
    }

    // ---------- rb_search ----------

    /** rb_search: a node with the given key, if there is one in the sorted tree, and all others are below it. */
    method Search(key: int) returns (r: Vma?, ghost c: Path, ghost t: Shape)
      requires Valid() && SortedBy(Keys(Repr()), Contents())
      ensures r != null ==> r in Contents() && r.vm_start == key
      ensures r != null ==> shape == Plug(c, t) && t.Node? && t.node == r
      ensures r != null ==> forall v :: v in Before(c) + After(c) ==> v.vm_start != key
      ensures r == null ==> forall v :: v in Contents() ==> v.vm_start != key
    {
      hide SortedBy, RedBlack;
      ghost var h, keys, nodes := Links(Repr()), Keys(Repr()), Repr();
      c, t := Top, shape;
      var x := root.left;
      while x != nil && x.vm_start != key
        invariant At(h, c, t) && Plug(c, t) == shape && x == RootOf(nil, t) && x in nodes
        invariant SortedBy(keys, Inorder(shape)) && Misses(keys, key, Before(c), After(c))
        decreases t
      {
        ghost var s := if keys[x] > key then Lft else Rgt;
        SearchStep(h, keys, key, c, t, s);
        x := if x.vm_start > key then x.left else x.right;
        c, t := Frame(s, t.red, t.node, Kid(Other(s), t), c), Kid(s, t);
      }
      PlugInorder(c, t);
      r := if x != nil then x else null;
      assert r == null ==> Contents() == Before(c) + After(c);
    }
  }
}
