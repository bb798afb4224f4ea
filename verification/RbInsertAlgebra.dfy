/**
 What one round of the loop in rb_insert does to a tree that is red-black except that the node in
 focus and its parent may both be red.
 */
module RbInsertAlgebra {
  import opened RbShapes

  /** The nodes in order, split at a hole. */
  function Around<N>(c: Context<N>, t: Tree<N>): seq<N> {
    Before(c) + Inorder(t) + After(c)
  }

  lemma {:induction false} AroundUp<N>(s: Side, red: bool, t: Tree<N>, n: N, sib: Tree<N>, up: Context<N>)
    ensures Around(Frame(s, red, n, sib, up), t) == Around(up, Mk(s, red, t, n, sib))
  {
    var b, i, k, a := Before(up), Inorder(t), Inorder(sib), After(up);
    if s == Lft {
      Grouped(b, i, [n], k, a);
    } else {
      Grouped(b, k, [n], i, a);
    }
  }

  lemma {:induction false} Grouped<N>(b: seq<N>, l: seq<N>, n: seq<N>, r: seq<N>, a: seq<N>)
    ensures b + (l + n + r) + a == b + l + (n + r + a)
    ensures b + (l + n + r) + a == (b + l + n) + r + a
  {
  }

  lemma {:induction false} AroundSame<N>(c: Context<N>, t: Tree<N>, t': Tree<N>)
    requires Inorder(t) == Inorder(t')
    ensures Around(c, t) == Around(c, t')
  {
  }

  /** The loop invariant of rb_insert on shapes: `t` is red, and only the edge above it may be red-red. */
  predicate InsertState<N>(c: Context<N>, t: Tree<N>) {
    t.Node? && t.red && NoRedRed(t) && Balanced(t) && CRedBlack(c, Height(t))
  }

  /** A new red node in a hole at the bottom. */
  lemma {:induction false} InsertStart<N>(c: Context<N>, n: N)
    requires RedBlack(Plug(c, Leaf))
    ensures InsertState(c, Node(true, Leaf, n, Leaf))
    ensures Around(c, Node(true, Leaf, n, Leaf)) == Before(c) + [n] + After(c)
    ensures Inorder(Plug(c, Leaf)) == Before(c) + After(c)
  {
    UnplugRedBlack(c, Leaf);
    PlugInorder(c, Leaf);
    assert Inorder(Node(true, Leaf, n, Leaf)) == [n];
  }

  /** A red parent is not the root of the tree, so there is a (black) grandparent. */
  lemma {:induction false} Grandparent<N>(c: Context<N>, t: Tree<N>)
    requires InsertState(c, t) && !CBlack(c)
    ensures c.Frame? && c.red && c.up.Frame? && !c.up.red
  {
  }

  /** Red uncle: the colours of parent, uncle and grandparent change. */
  function Recolored<N>(s: Side, s1: Side, t: Tree<N>, p: N, sib: Tree<N>, g: N, uncle: Tree<N>): Tree<N>
    requires uncle.Node?
  {
    Mk(s, true, Mk(s1, false, t, p, sib), g, uncle.(red := false))
  }

  lemma {:induction false} RecolorKeeps<N>(s: Side, s1: Side, t: Tree<N>, p: N, sib: Tree<N>, g: N, uncle: Tree<N>,
                                           up: Context<N>)
    requires uncle.Node? && uncle.red
    requires InsertState(Frame(s1, true, p, sib, Frame(s, false, g, uncle, up)), t)
    ensures InsertState(up, Recolored(s, s1, t, p, sib, g, uncle))
    ensures Around(up, Recolored(s, s1, t, p, sib, g, uncle))
            == Around(Frame(s1, true, p, sib, Frame(s, false, g, uncle, up)), t)
  {
    AroundUp(s1, true, t, p, sib, Frame(s, false, g, uncle, up));
    AroundUp(s, false, Mk(s1, true, t, p, sib), g, uncle, up);
    AroundSame(up, Mk(s, false, Mk(s1, true, t, p, sib), g, uncle), Recolored(s, s1, t, p, sib, g, uncle));
    assert CRedBlack(Frame(s, false, g, uncle, up), Height(t));
    var grey := Mk(s1, false, t, p, sib);
    MkBalance(s1, false, t, p, sib);
    MkBalance(s, true, grey, g, uncle.(red := false));
  }

  /** Black uncle, outer grandchild: one rotation, after which `p` is black and on top. */
  lemma {:induction false} StraightKeeps<N>(s: Side, t: Tree<N>, p: N, sib: Tree<N>, g: N, uncle: Tree<N>,
                                            up: Context<N>)
    requires IsBlack(uncle)
    requires InsertState(Frame(s, true, p, sib, Frame(s, false, g, uncle, up)), t)
    ensures InsertState(Frame(s, false, p, Mk(s, true, sib, g, uncle), up), t)
    ensures Around(Frame(s, false, p, Mk(s, true, sib, g, uncle), up), t)
            == Around(Frame(s, true, p, sib, Frame(s, false, g, uncle, up)), t)
  {
    assert CRedBlack(Frame(s, false, g, uncle, up), Height(t));
    MkBalance(s, true, sib, g, uncle);
    AroundUp(s, true, t, p, sib, Frame(s, false, g, uncle, up));
    AroundUp(s, false, Mk(s, true, t, p, sib), g, uncle, up);
    AroundUp(s, false, t, p, Mk(s, true, sib, g, uncle), up);
    RotatedInorder(s, false, true, false, true, t, p, sib, g, uncle);
    AroundSame(up, Mk(s, false, Mk(s, true, t, p, sib), g, uncle), Mk(s, false, t, p, Mk(s, true, sib, g, uncle)));
  }

  /** Black uncle, inner grandchild: the rotation that turns it into an outer one. */
  lemma {:induction false} BentKeeps<N>(s: Side, a: Tree<N>, x: N, b: Tree<N>, p: N, sib: Tree<N>, g: N, uncle: Tree<N>,
                                        up: Context<N>)
    requires InsertState(Frame(Other(s), true, p, sib, Frame(s, false, g, uncle, up)), Mk(s, true, a, x, b))
    ensures InsertState(Frame(s, true, x, b, Frame(s, false, g, uncle, up)), Mk(s, true, sib, p, a))
    ensures Around(Frame(s, true, x, b, Frame(s, false, g, uncle, up)), Mk(s, true, sib, p, a))
         == Around(Frame(Other(s), true, p, sib, Frame(s, false, g, uncle, up)), Mk(s, true, a, x, b))
  {
    var up' := Frame(s, false, g, uncle, up);
    MkBalance(s, true, a, x, b);
    MkBalance(s, true, sib, p, a);
    AroundUp(Other(s), true, Mk(s, true, a, x, b), p, sib, up');
    AroundUp(s, true, Mk(s, true, sib, p, a), x, b, up');
    RotatedInorder(s, true, true, true, true, sib, p, a, x, b);
    AroundSame(up', Mk(s, true, sib, p, Mk(s, true, a, x, b)), Mk(s, true, Mk(s, true, sib, p, a), x, b));
  }

  /** At the end of the loop only the root may have to turn black. */
  lemma {:induction false} InsertDone<N>(c: Context<N>, t: Tree<N>)
    requires InsertState(c, t) && CBlack(c)
    ensures Plug(c, t).Node? && RedBlack(Plug(c, t).(red := false))
    ensures Inorder(Plug(c, t).(red := false)) == Around(c, t)
  {
    PlugRedBlack(c, t);
    PlugInorder(c, t);
    PlugIsNode(c, t);
  }

  lemma {:induction false} PlugIsNode<N>(c: Context<N>, t: Tree<N>)
    requires t.Node?
    ensures Plug(c, t).Node?
    decreases c
  {
    if c.Frame? {
      PlugIsNode(c.up, Mk(c.side, c.red, t, c.node, c.sib));
    }
  }
}
