/**
 What rb_delete does to a red-black tree: unlinking a node, and one round of the loop in
 rb_delete_fixup, where the subtree in focus is one black node short.
 */
module RbDeleteAlgebra {
  import opened RbShapes
  import opened RbInsertAlgebra

  function Blackened<N>(t: Tree<N>): Tree<N> {
    if t.Leaf? then t else t.(red := false)
  }

  /**
   The loop invariant of rb_delete_fixup on shapes: `t` lacks one black node on every path. If its root
   is red, the loop ends and that root turns black, so it may have red children.
   */
  predicate DeleteState<N>(c: Context<N>, t: Tree<N>) {
    NoRedRed(Blackened(t)) && Balanced(t) && CRedBlack(c, Height(t) + 1)
  }

  /** Nothing is left to repair. */
  predicate Settled<N>(c: Context<N>, t: Tree<N>) {
    NoRedRed(t) && Balanced(t) && CRedBlack(c, Height(t)) && (IsBlack(t) || (c.Frame? && CBlack(c)))
  }

  lemma {:induction false} SettledPlug<N>(c: Context<N>, t: Tree<N>)
    requires Settled(c, t)
    ensures RedBlack(Plug(c, t)) && Inorder(Plug(c, t)) == Around(c, t)
  {
    PlugRedBlack(c, t);
    PlugInorder(c, t);
  }

  /** The loop ends at a red node, which turns black, or at the root. */
  lemma {:induction false} DeleteDone<N>(c: Context<N>, t: Tree<N>)
    requires DeleteState(c, t)
    ensures t.Node? && t.red ==> Settled(c, t.(red := false)) && Around(c, t.(red := false)) == Around(c, t)
    ensures c.Top? && IsBlack(t) ==> Settled(c, t)
  {
    if t.Node? && t.red {
      AroundSame(c, t, t.(red := false));
    }
  }

  /** The sibling of a short subtree is a real node, and so are the children of a red sibling. */
  lemma {:induction false} Sibling<N>(s: Side, rp: bool, p: N, sib: Tree<N>, up: Context<N>, t: Tree<N>)
    requires DeleteState(Frame(s, rp, p, sib, up), t)
    ensures sib.Node?
    ensures sib.red ==> !rp && Kid(Lft, sib).Node? && Kid(Rgt, sib).Node? && !Kid(Lft, sib).red && !Kid(Rgt, sib).red
  {
    if sib.Node? && sib.red {
      assert Height(sib.left) >= 2 && Height(sib.right) >= 2;
    }
  }

  /** Red sibling: after a rotation the sibling is one of its children, which is black. */
  lemma {:induction false} RedSibling<N>(s: Side, t: Tree<N>, p: N, wl: Tree<N>, w: N, wr: Tree<N>, up: Context<N>)
    requires DeleteState(Frame(s, false, p, Mk(s, true, wl, w, wr), up), t)
    ensures DeleteState(Frame(s, true, p, wl, Frame(s, false, w, wr, up)), t) && IsBlack(wl)
    ensures Around(Frame(s, true, p, wl, Frame(s, false, w, wr, up)), t)
            == Around(Frame(s, false, p, Mk(s, true, wl, w, wr), up), t)
  {
    MkBalance(s, true, wl, w, wr);
    assert CRedBlack(Frame(s, false, w, wr, up), Height(t) + 1);
    AroundUp(s, false, t, p, Mk(s, true, wl, w, wr), up);
    AroundUp(s, true, t, p, wl, Frame(s, false, w, wr, up));
    AroundUp(s, false, Mk(s, true, t, p, wl), w, wr, up);
    RotatedInorder(s, false, true, false, true, t, p, wl, w, wr);
    AroundSame(up, Mk(s, false, t, p, Mk(s, true, wl, w, wr)), Mk(s, false, Mk(s, true, t, p, wl), w, wr));
  }

  /** Black sibling with black children: it turns red, and the parent is what is short now. */
  lemma {:induction false} BlackSibling<N>(s: Side, rp: bool, t: Tree<N>, p: N, wl: Tree<N>, w: N, wr: Tree<N>,
                                           up: Context<N>)
    requires DeleteState(Frame(s, rp, p, Mk(s, false, wl, w, wr), up), t)
    requires IsBlack(t) && IsBlack(wl) && IsBlack(wr)
    ensures DeleteState(up, Mk(s, rp, t, p, Mk(s, true, wl, w, wr)))
    ensures Around(up, Mk(s, rp, t, p, Mk(s, true, wl, w, wr)))
            == Around(Frame(s, rp, p, Mk(s, false, wl, w, wr), up), t)
  {
    MkBalance(s, false, wl, w, wr);
    MkBalance(s, true, wl, w, wr);
    MkBalance(s, rp, t, p, Mk(s, true, wl, w, wr));
    MkBalance(s, false, t, p, Mk(s, true, wl, w, wr));
    AroundUp(s, rp, t, p, Mk(s, false, wl, w, wr), up);
    AroundSame(up, Mk(s, rp, t, p, Mk(s, false, wl, w, wr)), Mk(s, rp, t, p, Mk(s, true, wl, w, wr)));
  }

  /** Black sibling whose outer child is black: a rotation below puts a red one there. */
  lemma {:induction false} InnerRed<N>(s: Side, rp: bool, t: Tree<N>, p: N, a: Tree<N>, v: N, b: Tree<N>, w: N,
                                       wr: Tree<N>, up: Context<N>)
    requires DeleteState(Frame(s, rp, p, Mk(s, false, Mk(s, true, a, v, b), w, wr), up), t) && IsBlack(wr)
    ensures DeleteState(Frame(s, rp, p, Mk(s, false, a, v, Mk(s, true, b, w, wr)), up), t)
    ensures Around(Frame(s, rp, p, Mk(s, false, a, v, Mk(s, true, b, w, wr)), up), t)
         == Around(Frame(s, rp, p, Mk(s, false, Mk(s, true, a, v, b), w, wr), up), t)
  {
    MkBalance(s, true, a, v, b);
    MkBalance(s, false, Mk(s, true, a, v, b), w, wr);
    MkBalance(s, true, b, w, wr);
    MkBalance(s, false, a, v, Mk(s, true, b, w, wr));
    RotatedInorder(s, false, true, false, true, a, v, b, w, wr);
  }

  /** Black sibling whose outer child is red: one rotation settles everything. */
  lemma {:induction false} OuterRed<N>(s: Side, rp: bool, t: Tree<N>, p: N, wl: Tree<N>, w: N, wr: Tree<N>,
                                       up: Context<N>)
    requires DeleteState(Frame(s, rp, p, Mk(s, false, wl, w, wr), up), t) && wr.Node? && wr.red && IsBlack(t)
    ensures Settled(up, Mk(s, rp, Mk(s, false, t, p, wl), w, wr.(red := false)))
    ensures Around(up, Mk(s, rp, Mk(s, false, t, p, wl), w, wr.(red := false)))
            == Around(Frame(s, rp, p, Mk(s, false, wl, w, wr), up), t)
  {
    MkBalance(s, false, wl, w, wr);
    MkBalance(s, false, t, p, wl);
    MkBalance(s, rp, Mk(s, false, t, p, wl), w, wr.(red := false));
    AroundUp(s, rp, t, p, Mk(s, false, wl, w, wr), up);
    RotatedInorder(s, rp, false, rp, false, t, p, wl, w, wr);
    AroundSame(up, Mk(s, rp, t, p, Mk(s, false, wl, w, wr)), Mk(s, rp, Mk(s, false, t, p, wl), w, wr));
    InorderOfMk(s, rp, Mk(s, false, t, p, wl), w, wr, wr.(red := false));
    AroundSame(up, Mk(s, rp, Mk(s, false, t, p, wl), w, wr), Mk(s, rp, Mk(s, false, t, p, wl), w, wr.(red := false)));
  }

  lemma {:induction false} InorderOfMk<N>(s: Side, red: bool, a: Tree<N>, n: N, b: Tree<N>, b': Tree<N>)
    requires Inorder(b) == Inorder(b')
    ensures Inorder(Mk(s, red, a, n, b)) == Inorder(Mk(s, red, a, n, b'))
  {
  }

  // ---------- unlinking ----------

  /** The subtree that takes the place of a node with at most one child. */
  function Remaining<N>(t: Tree<N>): Tree<N>
    requires t.Node?
  {
    if t.left.Node? then t.left else t.right
  }

  lemma {:induction false} UnlinkKeeps<N>(c: Context<N>, t: Tree<N>)
    requires RedBlack(Plug(c, t)) && t.Node? && (t.left.Leaf? || t.right.Leaf?)
    ensures t.red ==> Settled(c, Remaining(t))
    ensures !t.red ==> DeleteState(c, Remaining(t))
    ensures Inorder(Plug(c, t)) == Before(c) + Inorder(t) + After(c)
    ensures Inorder(t) == (if t.left.Node? then Inorder(t.left) + [t.node] else [t.node] + Inorder(t.right))
  {
    UnplugRedBlack(c, t);
    PlugInorder(c, t);
    assert t.red ==> Remaining(t).Leaf?;
  }

  /** Putting another node of the same colour at the end of the inner path changes no balance. */
  lemma {:induction false} JoinRename<N>(c1: Context<N>, s: Side, red: bool, n: N, n': N, sib: Tree<N>, up: Context<N>,
                                         h: nat)
    requires CRedBlack(Join(c1, Frame(s, red, n, sib, up)), h)
    ensures CRedBlack(Join(c1, Frame(s, red, n', sib, up)), h)
    ensures CBlack(Join(c1, Frame(s, red, n', sib, up))) == CBlack(Join(c1, Frame(s, red, n, sib, up)))
    decreases c1
  {
    if c1.Frame? {
      var f, f' := Frame(s, red, n, sib, up), Frame(s, red, n', sib, up);
      assert CRedBlack(Join(c1.up, f), h + if c1.red then 0 else 1);
      JoinRename(c1.up, s, red, n, n', sib, up, h + if c1.red then 0 else 1);
    }
  }

  /** The order without the node on top of `t`. */
  function Without<N>(c: Context<N>, t: Tree<N>): seq<N>
    requires t.Node?
  {
    Before(c) + (Inorder(t.left) + Inorder(t.right)) + After(c)
  }

  lemma {:induction false} WithoutSplit<N>(c: Context<N>, t: Tree<N>)
    requires t.Node?
    ensures var b, a := Before(c) + Inorder(t.left), Inorder(t.right) + After(c);
            Inorder(Plug(c, t)) == b + [t.node] + a && Without(c, t) == b + a
  {
    hide Plug, Before, After;
    PlugInorder(c, t);
    AroundNode(Before(c), Inorder(t.left), t.node, Inorder(t.right), After(c));
  }

  lemma {:induction false} AroundNode<N>(b: seq<N>, l: seq<N>, n: N, r: seq<N>, a: seq<N>)
    ensures b + (l + [n] + r) + a == (b + l) + [n] + (r + a)
    ensures b + (l + r) + a == (b + l) + (r + a)
  {
  }

  /** A node with at most one child is linked out. */
  lemma {:induction false} OuterUnlinked<N>(c: Context<N>, t: Tree<N>)
    requires RedBlack(Plug(c, t)) && t.Node? && (t.left.Leaf? || t.right.Leaf?)
    ensures if t.red then Settled(c, Remaining(t)) else DeleteState(c, Remaining(t))
    ensures Around(c, Remaining(t)) == Without(c, t)
  {
    UnlinkKeeps(c, t);
  }

  /** Linking out the first node of the right subtree and putting it in the place of `z` leaves out just `z`. */
  lemma {:induction false} InnerUnlinkedOrder<N>(c: Context<N>, red: bool, l: Tree<N>, z: N, c1: Context<N>, ry: bool,
                                                 y: N, u: Tree<N>)
    requires Before(c1) == []
    ensures Around(Join(c1, Frame(Rgt, red, y, l, c)), u) == Without(c, Node(red, l, z, Plug(c1, Node(ry, Leaf, y, u))))
  {
    hide Plug, Join;
    JoinAround(c1, Frame(Rgt, red, y, l, c));
    LeftmostInorder(c1, ry, y, u);
    Regrouped(Before(c), Inorder(l), [y], Inorder(u), After(c1), After(c));
  }

  /** The order of a tree whose first node is on top of `u`. */
  lemma {:induction false} LeftmostInorder<N>(c1: Context<N>, ry: bool, y: N, u: Tree<N>)
    requires Before(c1) == []
    ensures Inorder(Plug(c1, Node(ry, Leaf, y, u))) == [y] + Inorder(u) + After(c1)
  {
    hide Plug, Before, After;
    PlugInorder(c1, Node(ry, Leaf, y, u));
  }

  lemma {:induction false} Regrouped<N>(b: seq<N>, l: seq<N>, y: seq<N>, u: seq<N>, a1: seq<N>, a: seq<N>)
    ensures (b + l + y + []) + u + (a1 + a) == b + (l + (y + u + a1)) + a
  {
    assert l + (y + u + a1) == l + y + u + a1;
    assert b + l + y + [] == b + (l + y);
    assert b + (l + y) + u == b + (l + y + u);
    assert b + (l + y + u) + (a1 + a) == b + (l + y + u + a1) + a;
  }

  /**
   A node `z` with two children: its successor `y`, with right subtree `u`, is linked out from the place
   `c1` below the right child, and takes over the place and the colour of `z`.
   */
  lemma {:induction false} InnerUnlinked<N>(c: Context<N>, red: bool, l: Tree<N>, z: N, c1: Context<N>, ry: bool, y: N,
                                            u: Tree<N>)
    requires RedBlack(Plug(c, Node(red, l, z, Plug(c1, Node(ry, Leaf, y, u)))))
    ensures var c' := Join(c1, Frame(Rgt, red, y, l, c));
            if ry then Settled(c', u) else DeleteState(c', u)
  {
    var f := Frame(Rgt, red, z, l, c);
    JoinPlug(c1, f, Node(ry, Leaf, y, u));
    OuterUnlinked(Join(c1, f), Node(ry, Leaf, y, u));
    JoinRename(c1, Rgt, red, z, y, l, c, Height(u) + if ry then 0 else 1);
  }
}
