/**
 The set of virtual memory areas of an address space (kern/mm/vmm.c): one set of disjoint intervals,
 held as a list ordered by address, from 32 areas on also as a red-black tree, and as a cache of the
 area found last.
 */
module Vmm {
  import opened RbShapes
  import opened RbLinks
  import opened RbTree
  import opened Areas
  import opened Defs
  import Lists

  const RB_MIN_MAP_COUNT: int := 32

  /** ROUNDDOWN and ROUNDUP to pages, in 32-bit arithmetic. */
  function RoundDown(a: int): int {
    a - a % PGSIZE
  }

  function RoundUp(a: int): int {
    RoundDown((a + PGSIZE - 1) % TWO_32)
  }

  predicate UserAccess(start: int, end: int) {
    USERBASE <= start < end <= USERTOP
  }

  lemma {:induction false} RoundedPages(addr: int, end: int)
    requires UserAccess(RoundDown(addr), RoundUp(end))
    ensures UserPages(RoundDown(addr), RoundUp(end))
  {
  }

  /** Rounding what is rounded changes nothing. */
  lemma {:induction false} RoundedAgain(start: int, end: int)
    requires UserAccess(start, end) && UserPages(start, end)
    ensures RoundDown(start) == start && RoundUp((start + (end - start)) % TWO_32) == end
  {
  }

  /** Rounding goes to the ends of the page, or stays. */
  lemma {:induction false} Rounded(a: int)
    requires 0 <= a < TWO_32
    ensures RoundDown(a) % PGSIZE == 0 && RoundDown(a) <= a < RoundDown(a) + PGSIZE
    ensures a <= TWO_32 - PGSIZE ==> RoundUp(a) % PGSIZE == 0 && a <= RoundUp(a) < a + PGSIZE
  {
  }

  // ---------- ranges without rounding ----------

  /** A range that is not empty and does not reach the last page of the 32-bit address space. */
  predicate Plain(addr: int, len: int) {
    0 <= addr && 0 < len && addr + len <= TWO_32 - PGSIZE
  }

  predicate InUser(addr: int, len: int) {
    USERBASE <= addr && addr + len <= USERTOP
  }

  /** The page of `x` is one of those that hold an address of the range. */
  predicate OnPages(x: int, addr: int, len: int) {
    addr / PGSIZE <= x / PGSIZE <= (addr + len - 1) / PGSIZE
  }

  ghost predicate PagesUnmapped(s: seq<Area>, addr: int, len: int) {
    forall x :: OnPages(x, addr, len) ==> Flags(s, x) == Lists.None
  }

  /** All pages that hold an address of the range have these flags, or none, and all others are as before. */
  ghost predicate PagesMapped(s: seq<Area>, s': seq<Area>, addr: int, len: int, flags: Lists.Option<bv32>) {
    forall x :: Flags(s', x) == if OnPages(x, addr, len) then flags else Flags(s, x)
  }

  lemma {:induction false} OnPagesIs(addr: int, len: int, x: int)
    requires Plain(addr, len)
    ensures OnPages(x, addr, len) <==> RoundDown(addr) <= x < RoundUp((addr + len) % TWO_32)
  {
  }

  lemma {:induction false} PlainRange(s: seq<Area>, addr: int, len: int)
    ensures Plain(addr, len) ==> (InUser(addr, len) <==> UserAccess(RoundDown(addr), RoundUp((addr + len) % TWO_32)))
    ensures Plain(addr, len) ==>
              (PagesUnmapped(s, addr, len) <==> Unmapped(s, RoundDown(addr), RoundUp((addr + len) % TWO_32)))
  {
    if Plain(addr, len) {
      InUserIs(addr, len);
      hide RoundDown, RoundUp, OnPages;
      forall x
        ensures OnPages(x, addr, len) <==> RoundDown(addr) <= x < RoundUp((addr + len) % TWO_32)
      {
        OnPagesIs(addr, len, x);
      }
    }
  }

  lemma {:induction false} InUserIs(addr: int, len: int)
    requires Plain(addr, len)
    ensures InUser(addr, len) <==> UserAccess(RoundDown(addr), RoundUp((addr + len) % TWO_32))
  {
  }

  lemma {:induction false} PagesRemapped(s: seq<Area>, s': seq<Area>, addr: int, len: int, flags: bv32)
    ensures Plain(addr, len) && Remapped(s, s', RoundDown(addr), RoundUp((addr + len) % TWO_32), flags) ==>
              PagesMapped(s, s', addr, len, Lists.Some(flags))
  {
    if Plain(addr, len) {
      hide RoundDown, RoundUp, OnPages;
      forall x
        ensures OnPages(x, addr, len) <==> RoundDown(addr) <= x < RoundUp((addr + len) % TWO_32)
      {
        OnPagesIs(addr, len, x);
      }
    }
  }

  lemma {:induction false} PagesSubtracted(s: seq<Area>, s': seq<Area>, addr: int, len: int)
    ensures Plain(addr, len) && Subtracted(s, s', RoundDown(addr), RoundUp((addr + len) % TWO_32)) ==>
              PagesMapped(s, s', addr, len, Lists.None)
  {
    if Plain(addr, len) {
      hide RoundDown, RoundUp, OnPages;
      forall x
        ensures OnPages(x, addr, len) <==> RoundDown(addr) <= x < RoundUp((addr + len) % TWO_32)
      {
        OnPagesIs(addr, len, x);
      }
    }
  }

  // ---------- when memory is needed ----------

  /** The range is inside of one area, on both sides of which something is left. */
  ghost predicate Splits(s: seq<Area>, start: int, end: int) {
    exists i :: 0 <= i < |s| && s[i].start < start && end < s[i].end
  }

  lemma {:induction false} SplitsFirst(s: seq<Area>, start: int, end: int, k: nat)
    requires Ordered(s) && FirstEndingAfter(s, start, k) && start < end
    ensures Splits(s, start, end) <==> k < |s| && s[k].start < start && end < s[k].end
  {
    if Splits(s, start, end) {
      var i :| 0 <= i < |s| && s[i].start < start && end < s[i].end;
      assert i >= k && forall j :: k < j < |s| ==> s[k].end <= s[j].start;
    }
  }

  /** mm_brk needs an area, too, unless one with its flags ends where the range begins. */
  ghost predicate BrkFails(s: seq<Area>, start: int, end: int, split: bool, memory: bool) {
    || (!split && Splits(s, start, end))
    || (!memory && Flags(s, start - 1) != Lists.Some(VM_READ | VM_WRITE))
  }

  /** Where the range is free, an area that holds the address before it ends there. */
  lemma {:induction false} EndsHere(s: seq<Area>, start: int, end: int, k: nat)
    requires Ordered(s) && FirstEndingAfter(s, start - 1, k) && Unmapped(s, start, end) && start < end
    ensures forall flags :: Flags(s, start - 1) == Lists.Some(flags) <==>
        k < |s| && s[k].end == start && s[k].flags == flags
  {
    if k < |s| && s[k].Holds(start - 1) {
      FlagsSome(s, k, start - 1);
      if s[k].end > start {
        FlagsSome(s, k, start);
      }
    } else {
      forall i | 0 <= i < |s|
        ensures !s[i].Holds(start - 1)
      {
        assert i > k ==> s[k].end <= s[i].start;
      }
      FlagsNone(s, start - 1);
    }
  }

  // ---------- the data of the areas ----------

  ghost function Data(nodes: set<Vma>): map<Vma, Area>
    reads nodes`vm_start, nodes`vm_end, nodes`vm_flags
  {
    map v | v in nodes :: Area(v.vm_start, v.vm_end, v.vm_flags)
  }

  ghost function AreasOf(d: map<Vma, Area>, s: seq<Vma>): (r: seq<Area>)
    requires forall v :: v in s ==> v in d
    ensures |r| == |s| && forall i :: 0 <= i < |s| ==> r[i] == d[s[i]]
  {
    seq(|s|, i requires 0 <= i < |s| => d[s[i]])
  }

  /** The areas are ordered by address, which makes the nodes distinct. */
  ghost predicate OrderedBy(d: map<Vma, Area>, s: seq<Vma>) {
    (forall v :: v in s ==> v in d) && Ordered(AreasOf(d, s))
  }

  lemma {:induction false} OrderedDistinct(d: map<Vma, Area>, s: seq<Vma>)
    requires OrderedBy(d, s)
    ensures Lists.NoDup(s)
  {
    forall i, j | 0 <= i < j < |s|
      ensures s[i] != s[j]
    {
      assert AreasOf(d, s)[i].end <= AreasOf(d, s)[j].start;
      assert AreasOf(d, s)[i].start < AreasOf(d, s)[i].end;
    }
  }

  lemma {:induction false} OrderedEnds(s: seq<Area>, k: nat)
    requires Ordered(s) && k < |s|
    ensures forall i :: 0 <= i < k ==> s[i].end <= s[k].start
    ensures forall i :: k <= i < |s| ==> s[k].end <= s[i].end
  {
    forall i | k < i < |s|
      ensures s[k].end <= s[i].end
    {
      assert s[k].end <= s[i].start < s[i].end;
    }
  }

  // ---------- find_vma_rb ----------

  /** All areas in `b` end at or before `x`, all in `a` end behind it. */
  ghost predicate EndsAround(d: map<Vma, Area>, x: int, b: seq<Vma>, a: seq<Vma>) {
    && (forall v :: v in b ==> v in d && d[v].end <= x)
    && (forall v :: v in a ==> v in d && d[v].end > x)
  }

  lemma {:induction false} EndsBeside(d: map<Vma, Area>, b: seq<Vma>, l: seq<Vma>, n: Vma, r: seq<Vma>, a: seq<Vma>)
    requires OrderedBy(d, b + (l + [n] + r) + a)
    ensures n in d && d[n].start < d[n].end
    ensures forall v :: v in l ==> v in d && d[v].end <= d[n].start
    ensures forall v :: v in r ==> v in d && d[n].end <= d[v].start < d[v].end
  {
    var s := b + (l + [n] + r) + a;
    var g := AreasOf(d, s);
    assert s[|b| + |l|] == n && g[|b| + |l|] == d[n];
    forall i | 0 <= i < |l|
      ensures l[i] in d && d[l[i]].end <= d[n].start
    {
      assert s[|b| + i] == l[i] && g[|b| + i] == d[l[i]];
    }
    forall i | 0 <= i < |r|
      ensures r[i] in d && d[n].end <= d[r[i]].start < d[r[i]].end
    {
      assert s[|b| + |l| + 1 + i] == r[i] && g[|b| + |l| + 1 + i] == d[r[i]];
    }
  }

  /** One step of the search: to the left when the node ends behind `x`, else to the right. */
  lemma {:induction false} FindStep(h: Store<Vma>, d: map<Vma, Area>, x: int, c: Path, t: Shape, s: Side)
    requires At(h, c, t) && t.Node? && OrderedBy(d, Inorder(Plug(c, t))) && EndsAround(d, x, Before(c), After(c))
    requires t.node in d && (s == Lft <==> d[t.node].end > x)
    ensures var c', t' := Frame(s, t.red, t.node, Kid(Other(s), t), c), Kid(s, t);
            At(h, c', t') && Plug(c', t') == Plug(c, t) && EndsAround(d, x, Before(c'), After(c'))
  {
    PlugInorder(c, t);
    EndsBeside(d, Before(c), Inorder(t.left), t.node, Inorder(t.right), After(c));
    Down(h, s, t.red, Kid(s, t), t.node, Kid(Other(s), t), c);
  }

  /** The search stops early at an area that holds `x`. */
  lemma {:induction false} FindHit(d: map<Vma, Area>, x: int, c: Path, t: Shape)
    requires t.Node? && OrderedBy(d, Inorder(Plug(c, t))) && EndsAround(d, x, Before(c), After(c))
    requires t.node in d && d[t.node].start <= x < d[t.node].end
    ensures var b, a := Before(c) + Inorder(t.left), [t.node] + Inorder(t.right) + After(c);
            Inorder(Plug(c, t)) == b + a && EndsAround(d, x, b, a)
  {
    PlugInorder(c, t);
    EndsBeside(d, Before(c), Inorder(t.left), t.node, Inorder(t.right), After(c));
    SplitBefore(Before(c), Inorder(t.left), t.node, Inorder(t.right), After(c));
  }

  lemma {:induction false} SplitBefore<T>(b: seq<T>, l: seq<T>, n: T, r: seq<T>, a: seq<T>)
    ensures b + (l + [n] + r) + a == (b + l) + ([n] + r + a)
  {
  }

  lemma {:induction false} FirstFromEnds(d: map<Vma, Area>, x: int, s: seq<Vma>, b: seq<Vma>, a: seq<Vma>)
    requires s == b + a && EndsAround(d, x, b, a)
    ensures FirstEndingAfter(AreasOf(d, s), x, |b|)
  {
    assert forall i :: 0 <= i < |s| ==> s[i] == if i < |b| then b[i] else a[i - |b|];
  }

  /** Where the search ends: at an area that holds `x`, or below all of them. */
  lemma {:induction false} FindEnd(d: map<Vma, Area>, x: int, c: Path, t: Shape)
    returns (before: seq<Vma>, after: seq<Vma>)
    requires OrderedBy(d, Inorder(Plug(c, t))) && EndsAround(d, x, Before(c), After(c))
    requires t.Node? ==> t.node in d && d[t.node].start <= x < d[t.node].end
    ensures Inorder(Plug(c, t)) == before + after && EndsAround(d, x, before, after)
    ensures if t.Node? then after != [] && after[0] == t.node else after == After(c)
  {
    if t.Node? {
      FindHit(d, x, c, t);
      before, after := Before(c) + Inorder(t.left), [t.node] + Inorder(t.right) + After(c);
    } else {
      PlugInorder(c, t);
      before, after := Before(c), After(c);
      assert Inorder(Plug(c, t)) == before + after;
    }
  }

  /** find_vma_rb: the first area in the tree that ends behind `addr`. */
  method FindVmaRb(tree: RbTree, addr: int, ghost all: set<Vma>, ghost d: map<Vma, Area>)
    returns (vma: Vma?, ghost before: seq<Vma>, ghost after: seq<Vma>)
    requires tree.Valid() && tree.Repr() <= all && d == Data(all) && OrderedBy(d, tree.Contents())
    ensures tree.Contents() == before + after && EndsAround(d, addr, before, after)
    ensures vma == if after == [] then null else after[0]
  {
    ghost var h, nodes, shape := tree.Links(tree.Repr()), tree.Repr(), tree.shape;
    ghost var c, t := Top, shape;
    var node := tree.root.left;
    vma := null;
    while node != tree.nil
      invariant At(h, c, t) && Plug(c, t) == shape && node == RootOf(tree.nil, t) && node in nodes
      invariant OrderedBy(d, Inorder(shape)) && EndsAround(d, addr, Before(c), After(c))
      invariant vma == if After(c) == [] then null else After(c)[0]
      decreases t
    {
      assert d[node] == Area(node.vm_start, node.vm_end, node.vm_flags);
      ghost var s := if node.vm_end > addr then Lft else Rgt;
      if node.vm_end > addr {
        vma := node;
        if node.vm_start <= addr {
          break;
        }
        node := node.left;
      } else {
        node := node.right;
      }
      FindStep(h, d, addr, c, t, s);
      c, t := Frame(s, t.red, t.node, Kid(Other(s), t), c), Kid(s, t);
    }
    before, after := FindEnd(d, addr, c, t);
  }

  // ---------- insert_vma_struct ----------

  /** Ordered areas are sorted by the tree's key. */
  lemma {:induction false} SortedByStart(d: map<Vma, Area>, keys: map<Vma, int>, s: seq<Vma>)
    requires OrderedBy(d, s)
    requires forall v :: v in s ==> v in keys && keys[v] == d[v].start
    ensures SortedBy(keys, s)
  {
    forall i, j | 0 <= i < j < |s|
      ensures keys[s[i]] <= keys[s[j]]
    {
      assert AreasOf(d, s)[i].start < AreasOf(d, s)[i].end <= AreasOf(d, s)[j].start;
    }
  }

  /** The place that the tree finds by the key is the only one without overlap. */
  lemma {:induction false} PlaceByKey(d: map<Vma, Area>, keys: map<Vma, int>, v: Vma, b: seq<Vma>, a: seq<Vma>, k: nat)
    requires OrderedBy(d, b + a) && v in d && d[v].start < d[v].end && Place(AreasOf(d, b + a), d[v], k)
    requires forall u :: u in b + a ==> u in keys && keys[u] == d[u].start
    requires Divides(keys, d[v].start, b, a)
    ensures k == |b|
  {
    var s, g := b + a, AreasOf(d, b + a);
    assert forall i :: 0 <= i < |s| ==> g[i] == d[s[i]] && s[i] == if i < |b| then b[i] else a[i - |b|];
    assert k < |s| ==> g[k].start < g[k].end;
    assert |b| < |s| ==> g[|b|].start < g[|b|].end;
  }

  /** rb_insert of an area that overlaps none of the others. */
  method InsertInPlace(tree: RbTree, vma: Vma, ghost list: seq<Vma>, ghost all: set<Vma>, ghost d: map<Vma, Area>,
                       ghost k: nat)
    requires tree.Valid() && tree.Contents() == list && vma !in tree.Repr()
    requires tree.Repr() + {vma} <= all && d == Data(all) && OrderedBy(d, list)
    requires vma.vm_start < vma.vm_end && Place(AreasOf(d, list), d[vma], k)
    modifies tree`shape
    modifies (tree.Repr() + {vma})`red, (tree.Repr() + {vma})`left, (tree.Repr() + {vma})`right
    modifies (tree.Repr() + {vma})`parent
    ensures tree.Valid() && tree.Repr() == old(tree.Repr()) + {vma}
    ensures tree.Contents() == list[..k] + [vma] + list[k..]
  {
    ghost var keys := Keys(tree.Repr() + {vma});
    InorderNodes(tree.shape);
    SortedByStart(d, keys, list);
    ghost var before, after := tree.Insert(vma);
    PlaceByKey(d, keys, vma, before, after, k);
    assert before == list[..k] && after == list[k..];
  }

  /** insert_vma_rb, with the predecessor that it stores. */
  method InsertVmaRb(tree: RbTree, vma: Vma, ghost list: seq<Vma>, ghost all: set<Vma>, ghost d: map<Vma, Area>,
                     ghost k: nat)
    returns (prev: Vma?)
    requires tree.Valid() && tree.Contents() == list && vma !in tree.Repr()
    requires tree.Repr() + {vma} <= all && d == Data(all) && OrderedBy(d, list)
    requires vma.vm_start < vma.vm_end && Place(AreasOf(d, list), d[vma], k)
    modifies tree`shape
    modifies (tree.Repr() + {vma})`red, (tree.Repr() + {vma})`left, (tree.Repr() + {vma})`right
    modifies (tree.Repr() + {vma})`parent
    ensures tree.Valid() && tree.Repr() == old(tree.Repr()) + {vma}
    ensures tree.Contents() == list[..k] + [vma] + list[k..]
    ensures prev == if k == 0 then null else list[k - 1]
  {
    InorderNodes(tree.shape);
    assert vma !in list;
    InsertInPlace(tree, vma, list, all, d, k);
    InorderNodes(tree.shape);
    ghost var b, a;
    prev, b, a := tree.Prev(vma);
    SamePlace(list[..k], list[k..], b, a, vma);
    LastBefore(list, k, b);
  }

  lemma {:induction false} LastBefore<T>(list: seq<T>, k: nat, b: seq<T>)
    requires k <= |list| && b == list[..k]
    ensures (b == [] <==> k == 0) && (k > 0 ==> b[|b| - 1] == list[k - 1])
  {
  }

  /** The areas of a list do not depend on what else is in the pool. */
  lemma {:induction false} MoreData(d: map<Vma, Area>, d': map<Vma, Area>, list: seq<Vma>)
    requires (forall v :: v in list ==> v in d) && forall v :: v in d ==> v in d' && d'[v] == d[v]
    ensures AreasOf(d', list) == AreasOf(d, list)
  {
  }

  lemma {:induction false} SamePlace<T>(b: seq<T>, a: seq<T>, b': seq<T>, a': seq<T>, v: T)
    requires b + [v] + a == b' + [v] + a' && v !in b && v !in a
    ensures b == b' && a == a'
  {
    var s := b + [v] + a;
    assert s == b' + [v] + a';
    assert s[|b'|] == v;
    assert forall i :: 0 <= i < |s| && i != |b| ==> s[i] == if i < |b| then b[i] else a[i - |b| - 1];
    assert |b'| == |b|;
    assert b == s[..|b|] && a == s[|b| + 1..];
    assert b' == s[..|b|] && a' == s[|b| + 1..];
  }

  /** The next area of the list goes to the end of the tree. */
  method BuildStep(tree: RbTree, list: seq<Vma>, i: nat, ghost d: map<Vma, Area>)
    requires tree.Valid() && i < |list| && tree.Contents() == list[..i]
    requires tree.nil !in Elements(list) && tree.root !in Elements(list)
    requires d == Data(Elements(list)) && OrderedBy(d, list)
    modifies tree`shape, {tree.nil, tree.root}`red, {tree.nil, tree.root}`left, {tree.nil, tree.root}`right
    modifies {tree.nil, tree.root}`parent
    modifies Elements(list)`red, Elements(list)`left, Elements(list)`right, Elements(list)`parent
    ensures tree.Valid() && tree.Contents() == list[..i + 1]
  {
    ghost var d' := Data(tree.Repr() + {list[i]});
    InorderNodes(tree.shape);
    OrderedDistinct(d, list);
    assert list[i] !in list[..i];
    PrefixOrdered(d, d', list, i);
    assert Nodes(tree.shape) <= Elements(list) && list[i] in Elements(list);
    InsertInPlace(tree, list[i], list[..i], tree.Repr() + {list[i]}, d', i);
    NextPrefix(list, i);
  }

  lemma {:induction false} NextPrefix<T>(s: seq<T>, i: nat)
    requires i < |s|
    ensures s[..i][..i] + [s[i]] + s[..i][i..] == s[..i + 1]
  {
  }

  lemma {:induction false} PrefixOrdered(d: map<Vma, Area>, d': map<Vma, Area>, s: seq<Vma>, i: nat)
    requires OrderedBy(d, s) && i < |s|
    requires forall v :: v in s[..i + 1] ==> v in d' && d'[v] == d[v]
    ensures OrderedBy(d', s[..i]) && d'[s[i]].start < d'[s[i]].end && Place(AreasOf(d', s[..i]), d'[s[i]], i)
  {
    var g, g' := AreasOf(d, s), AreasOf(d', s[..i]);
    assert s[i] in s[..i + 1];
    assert g[i].start < g[i].end;
    forall j | 0 <= j < i
      ensures g'[j] == g[j]
    {
      assert s[j] in s[..i + 1];
    }
  }

  /** The tree of all areas is built in the order of the list, so each one goes to the end. */
  method BuildTree(list: seq<Vma>) returns (tree: RbTree)
    requires OrderedBy(Data(Elements(list)), list)
    modifies Elements(list)`red, Elements(list)`left, Elements(list)`right, Elements(list)`parent
    ensures tree.Valid()
    ensures tree.Contents() == list
    ensures fresh(tree) && fresh(tree.nil) && fresh(tree.root)
    ensures Data(Elements(list)) == old(Data(Elements(list)))
  {
    hide At, RedBlack, Inorder, Ordered;
    ghost var d, all := Data(Elements(list)), Elements(list);
    OrderedDistinct(d, list);
    tree := new RbTree();
    for i := 0 to |list|
      invariant tree.Valid()
      invariant tree.Contents() == list[..i]
      invariant tree.nil !in all && tree.root !in all
      invariant fresh(tree) && fresh(tree.nil) && fresh(tree.root)
      invariant Data(all) == d
    {
      InorderNodes(tree.shape);
      BuildStep(tree, list, i, d);
      assert tree.Contents() == list[..i + 1];
    }
    assert list[..|list|] == list;
  }

  /** rb_delete of the area at `k`. */
  method DeleteInPlace(tree: RbTree, vma: Vma, ghost list: seq<Vma>, ghost k: nat)
    requires tree.Valid() && tree.Contents() == list && Lists.NoDup(list) && k < |list| && list[k] == vma
    modifies tree`shape, tree.Repr()`red, tree.Repr()`left, tree.Repr()`right, tree.Repr()`parent
    ensures tree.Valid() && old(tree.Repr()) == tree.Repr() + {vma}
    ensures tree.Contents() == list[..k] + list[k + 1..]
  {
    InorderNodes(tree.shape);
    assert list == list[..k] + [vma] + list[k + 1..];
    ghost var b, a := tree.Delete(vma);
    SamePlace(list[..k], list[k + 1..], b, a, vma);
  }

  /**
   `m` areas from the one at `k` on have left the list, each to the front of `free`; all of them start before `end`.
   */
  ghost predicate Taken(list: seq<Vma>, areas: seq<Area>, k: nat, m: nat, free: seq<Vma>, end: int,
                        list': seq<Vma>, areas': seq<Area>)
  {
    && |areas| == |list| && k + m <= |list| && |free| == m
    && list' == list[..k] + list[k + m..] && areas' == areas[..k] + areas[k + m..]
    && (forall i :: 0 <= i < m ==> free[i] == list[k + m - 1 - i])
    && (forall i :: k <= i < k + m ==> areas[i].start < end)
  }

  lemma {:induction false} TakenNone(list: seq<Vma>, areas: seq<Area>, k: nat, end: int)
    requires |areas| == |list| && k <= |list|
    ensures Taken(list, areas, k, 0, [], end, list, areas)
  {
    assert list == list[..k] + list[k..] && areas == areas[..k] + areas[k..];
  }

  lemma {:induction false} TakenBound(list: seq<Vma>, areas: seq<Area>, k: nat, m: nat, free: seq<Vma>, end: int,
                                      list': seq<Vma>, areas': seq<Area>)
    requires Taken(list, areas, k, m, free, end, list', areas')
    ensures |list'| == |list| - m && k + m <= |list|
  {
  }

  lemma {:induction false} TakenNext(list: seq<Vma>, areas: seq<Area>, k: nat, m: nat, free: seq<Vma>, end: int,
                                     list': seq<Vma>, areas': seq<Area>)
    requires Taken(list, areas, k, m, free, end, list', areas') && k < |list'|
    ensures areas'[k] == areas[k + m] && list'[k] == list[k + m]
    ensures areas'[k].start < end ==>
      Taken(list, areas, k, m + 1, [list'[k]] + free, end, list'[..k] + list'[k + 1..], areas'[..k] + areas'[k + 1..])
  {
    Lists.WiderGap(list, k, m);
    Lists.WiderGap(areas, k, m);
  }

  /** An area that holds `x` allows the access; the lowest page of a stack cannot be written. */
  ghost predicate Permits(s: seq<Area>, x: int, write: bool) {
    exists i :: 0 <= i < |s| && s[i].Holds(x) && Allows(s[i], x, write)
  }

  predicate Allows(a: Area, x: int, write: bool) {
    && a.flags & (if write then VM_WRITE else VM_READ) != 0
    && !(write && a.flags & VM_STACK != 0 && x < a.start + PGSIZE)
  }

  /** It is the flags of the address that decide, but for stores into a stack. */
  lemma {:induction false} PermitsFlags(s: seq<Area>, x: int, write: bool)
    requires Ordered(s)
    ensures Permits(s, x, write) ==>
              Flags(s, x).Some? && Flags(s, x).value & (if write then VM_WRITE else VM_READ) != 0
    ensures Flags(s, x).Some? && Flags(s, x).value & VM_READ != 0 ==> Permits(s, x, false)
    ensures Flags(s, x).Some? && Flags(s, x).value & VM_WRITE != 0 ==>
              (Permits(s, x, true) <==> !(Flags(s, x).value & VM_STACK != 0
                                          && exists i :: 0 <= i < |s| && s[i].Holds(x) && x - s[i].start < PGSIZE))
  {
    if k: nat :| k < |s| && s[k].Holds(x) {
      FlagsSome(s, k, x);
      forall i | 0 <= i < |s| && i != k
        ensures !s[i].Holds(x)
      {
      }
    } else {
      FlagsNone(s, x);
    }
  }

  /**
   Access to an address is decided by the first area that ends behind it, and if it is allowed then up to the area's
   end.
   */
  lemma {:induction false} PermitsFrom(s: seq<Area>, x: int, write: bool, k: nat)
    requires Ordered(s) && FirstEndingAfter(s, x, k)
    ensures Permits(s, x, write) <==> k < |s| && s[k].Holds(x) && Allows(s[k], x, write)
    ensures k < |s| && s[k].Holds(x) && Allows(s[k], x, write) ==> forall y :: x <= y < s[k].end ==>
        Permits(s, y, write)
  {
    if Permits(s, x, write) {
      var i :| 0 <= i < |s| && s[i].Holds(x) && Allows(s[i], x, write);
      assert i >= k && forall j :: k < j < |s| ==> s[k].end <= s[j].start;
    }
    if k < |s| && s[k].Holds(x) && Allows(s[k], x, write) {
      forall y | x <= y < s[k].end
        ensures Permits(s, y, write)
      {
        assert s[k].Holds(y) && Allows(s[k], y, write);
      }
    }
  }

  class Mm {
    var mmap_list: seq<Vma>
    var mmap_tree: RbTree?
    var mmap_cache: Vma?
    var map_count: int
    /** The areas, those that are out of use, and the sentinels of the tree. */
    ghost var pool: set<Vma>

    /** mm_create. */
    constructor ()
      ensures Valid() && Areas() == [] && mmap_tree == null && pool == {}
    {
      mmap_list, mmap_tree, mmap_cache, map_count, pool := [], null, null, 0, {};
    }

    ghost function Sentinels(): set<Vma>
      reads this`mmap_tree
    {
      if mmap_tree == null then {} else {mmap_tree.nil, mmap_tree.root}
    }

    ghost function Tree(): set<RbTree>
      reads this`mmap_tree
    {
      if mmap_tree == null then {} else {mmap_tree}
    }

    /** The tree, if there is one, holds exactly these areas in this order. */
    ghost predicate TreeHolds(list: seq<Vma>)
      reads this`mmap_tree, this`pool, mmap_tree, pool`red, pool`left, pool`right, pool`parent
    {
      mmap_tree != null ==> mmap_tree.Repr() <= pool && mmap_tree.Valid() && mmap_tree.Contents() == list
    }

    ghost predicate Owns(list: seq<Vma>)
      reads this`pool
    {
      forall v :: v in list ==> v in pool
    }

    /** The areas in the order of the list. */
    ghost function Areas(): seq<Area>
      requires Owns(mmap_list)
      reads this`mmap_list, this`pool, pool`vm_start, pool`vm_end, pool`vm_flags
    {
      AreasOf(Data(pool), mmap_list)
    }

    /** List, tree, cache and count agree on one set of areas. */
    ghost predicate Valid()
      reads this, mmap_tree, pool
    {
      && Owns(mmap_list) && Ordered(Areas()) && map_count == |mmap_list|
      && (mmap_cache != null ==> mmap_cache in mmap_list)
      && TreeHolds(mmap_list)
    }

    /** An area that is not in use. */
    ghost predicate Unused(vma: Vma)
      reads this`mmap_list, this`mmap_tree, this`pool
    {
      vma in pool && vma !in mmap_list && vma !in Sentinels()
    }

    // ---------- find_vma ----------

    /** The list search of find_vma. */
    method FindInList(addr: int) returns (vma: Vma?, ghost k: nat)
      requires Valid()
      ensures Valid() && Areas() == old(Areas()) && FirstEndingAfter(Areas(), addr, k)
      ensures vma == if k < |mmap_list| then mmap_list[k] else null
    {
      k := 0;
      for i := 0 to |mmap_list|
        invariant forall j :: 0 <= j < i ==> Areas()[j].end <= addr
      {
        assert Areas()[i].end == mmap_list[i].vm_end;
        if addr < mmap_list[i].vm_end {
          k := i;
          OrderedEnds(Areas(), k);
          return mmap_list[i], i;
        }
      }
      return null, |mmap_list|;
    }

    method FindInTree(addr: int) returns (vma: Vma?, ghost k: nat)
      requires Valid() && mmap_tree != null
      ensures Valid() && Areas() == old(Areas()) && FirstEndingAfter(Areas(), addr, k)
      ensures vma == if k < |mmap_list| then mmap_list[k] else null
    {
      ghost var before, after, d := [], [], Data(pool);
      vma, before, after := FindVmaRb(mmap_tree, addr, pool, d);
      k := |before|;
      FirstFromEnds(d, addr, mmap_list, before, after);
    }

    /** The cached area is the right answer if it holds the address. */
    lemma {:induction false} FindInCache(addr: int) returns (k: nat)
      requires Valid() && mmap_cache != null && mmap_cache.vm_start <= addr < mmap_cache.vm_end
      ensures FirstEndingAfter(Areas(), addr, k) && k < |mmap_list| && mmap_list[k] == mmap_cache
    {
      k :| 0 <= k < |mmap_list| && mmap_list[k] == mmap_cache;
      assert Areas()[k] == Area(mmap_cache.vm_start, mmap_cache.vm_end, mmap_cache.vm_flags);
      OrderedEnds(Areas(), k);
    }

    /** The look-up of find_vma, in the cache, the tree or the list. */
    method LookUp(addr: int) returns (vma: Vma?, ghost k: nat)
      requires Valid()
      ensures Valid() && Areas() == old(Areas()) && FirstEndingAfter(Areas(), addr, k)
      ensures vma == if k < |mmap_list| then mmap_list[k] else null
    {
      vma := mmap_cache;
      if !(vma != null && vma.vm_start <= addr && vma.vm_end > addr) {
        if mmap_tree != null {
          vma, k := FindInTree(addr);
        } else {
          vma, k := FindInList(addr);
        }
      } else {
        k := FindInCache(addr);
      }
    }

    /** find_vma: the first area that ends behind `addr`, whichever of cache, tree and list answers. */
    method FindVma(addr: int) returns (vma: Vma?, ghost k: nat)
      requires Valid()
      modifies this`mmap_cache
      ensures Valid() && Areas() == old(Areas()) && FirstEndingAfter(Areas(), addr, k)
      ensures vma == if k < |mmap_list| then mmap_list[k] else null
    {
      vma, k := LookUp(addr);
      if vma != null {
        mmap_cache := vma;
      }
    }

    // ---------- insert_vma_struct ----------

    /** The list search of insert_vma_struct: the last area that does not start behind the new one. */
    method PrevInList(vma: Vma, ghost k: nat) returns (prev: Vma?)
      requires Valid() && vma.vm_start < vma.vm_end && Place(Areas(), Area(vma.vm_start, vma.vm_end, vma.vm_flags), k)
      ensures Valid() && Areas() == old(Areas())
      ensures prev == if k == 0 then null else mmap_list[k - 1]
    {
      prev := null;
      for i := 0 to |mmap_list|
        invariant i <= k && prev == if i == 0 then null else mmap_list[i - 1]
      {
        assert Areas()[i] == Area(mmap_list[i].vm_start, mmap_list[i].vm_end, mmap_list[i].vm_flags);
        assert Areas()[i].start < Areas()[i].end;
        if mmap_list[i].vm_start > vma.vm_start {
          break;
        }
        prev := mmap_list[i];
      }
    }

    /** insert_vma_struct up to the linking into the list: the tree, if there is one, gets the new area. */
    method PrevByTree(vma: Vma, ghost k: nat) returns (prev: Vma?)
      requires Valid() && mmap_tree != null && Unused(vma)
      requires vma.vm_start < vma.vm_end && Place(Areas(), Area(vma.vm_start, vma.vm_end, vma.vm_flags), k)
      modifies mmap_tree`shape, pool`red, pool`left, pool`right, pool`parent
      ensures TreeHolds(mmap_list[..k] + [vma] + mmap_list[k..])
      ensures prev == if k == 0 then null else mmap_list[k - 1]
    {
      ghost var d := Data(pool);
      InorderNodes(mmap_tree.shape);
      prev := InsertVmaRb(mmap_tree, vma, mmap_list, pool, d, k);
    }

    /** What linking a new area into the list does to the areas. */
    static lemma {:induction false} Linked(d: map<Vma, Area>, list: seq<Vma>, vma: Vma, k: nat)
      requires OrderedBy(d, list) && vma in d && d[vma].start < d[vma].end && Place(AreasOf(d, list), d[vma], k)
      ensures var list' := list[..k] + [vma] + list[k..];
              OrderedBy(d, list') && AreasOf(d, list') == AreasOf(d, list)[..k] + [d[vma]] + AreasOf(d, list)[k..]
    {
      PlaceOrdered(AreasOf(d, list), d[vma], k);
      assert AreasOf(d, list[..k] + [vma] + list[k..]) == AreasOf(d, list)[..k] + [d[vma]] + AreasOf(d, list)[k..];
    }

    /** list_add_after, behind the previous area or at the head of the list. */
    static function LinkAfter(list: seq<Vma>, prev: Vma?, vma: Vma): seq<Vma>
      requires prev != null ==> prev in list
    {
      if prev == null then [vma] + list else Lists.AddAfter<Vma>(list, prev, vma)
    }

    static lemma {:induction false} LinkAfterAt(d: map<Vma, Area>, list: seq<Vma>, k: nat, vma: Vma)
      requires OrderedBy(d, list) && k <= |list|
      ensures LinkAfter(list, if k == 0 then null else list[k - 1], vma) == list[..k] + [vma] + list[k..]
    {
      if k > 0 {
        OrderedDistinct(d, list);
        Lists.AddAfterAt(list, k - 1, vma);
      }
    }

    /** The previous area in the list, from the tree, which gets the new area, or from the list. */
    method PrevVma(vma: Vma, ghost k: nat) returns (prev: Vma?)
      requires Valid() && Unused(vma)
      requires vma.vm_start < vma.vm_end && Place(Areas(), Area(vma.vm_start, vma.vm_end, vma.vm_flags), k)
      modifies Tree()`shape, pool`red, pool`left, pool`right, pool`parent
      ensures TreeHolds(mmap_list[..k] + [vma] + mmap_list[k..])
      ensures prev == if k == 0 then null else mmap_list[k - 1]
      ensures Data(pool) == old(Data(pool))
    {
      hide Ordered, Place, At, RedBlack, Inorder;
      if mmap_tree != null {
        prev := PrevByTree(vma, k);
      } else {
        prev := PrevInList(vma, k);
      }
    }

    /** The list becomes `list`, which the tree holds already. */
    method SetList(list: seq<Vma>, count: int, cache: Vma?)
      requires OrderedBy(Data(pool), list) && TreeHolds(list) && count == |list|
      requires cache != null ==> cache in list
      modifies this`mmap_list, this`map_count, this`mmap_cache
      ensures Valid() && mmap_list == list && Areas() == old(AreasOf(Data(pool), list))
      ensures Data(pool) == old(Data(pool))
    {
      hide At, RedBlack, Inorder, Ordered;
      ghost var d := Data(pool);
      mmap_list, map_count, mmap_cache := list, count, cache;
      assert Data(pool) == d && TreeHolds(list);
    }

    /** insert_vma_struct, before a tree may have to be built. */
    method LinkVma(vma: Vma, ghost k: nat)
      requires Valid() && Unused(vma)
      requires vma.vm_start < vma.vm_end && Place(Areas(), Area(vma.vm_start, vma.vm_end, vma.vm_flags), k)
      modifies this`mmap_list, this`map_count, this`mmap_cache, Tree()`shape, pool`red, pool`left, pool`right
      modifies pool`parent
      ensures Valid() && mmap_list == old(mmap_list[..k] + [vma] + mmap_list[k..])
      ensures Areas() == old(Areas()[..k]) + [old(Area(vma.vm_start, vma.vm_end, vma.vm_flags))] + old(Areas()[k..])
    {
      ghost var d, list := Data(pool), mmap_list;
      var prev := PrevVma(vma, k);
      LinkAfterAt(d, list, k, vma);
      Linked(d, list, vma, k);
      assert d[vma] == old(Area(vma.vm_start, vma.vm_end, vma.vm_flags));
      SetList(LinkAfter(mmap_list, prev, vma), map_count + 1, mmap_cache);
    }

    /** An object joins the pool. */
    ghost method Adopt(v: Vma)
      requires Valid()
      modifies this`pool
      ensures Valid()
      ensures Areas() == old(Areas())
      ensures pool == old(pool) + {v}
    {
      hide Ordered;
      ghost var d := Data(pool);
      pool := pool + {v};
      MoreData(d, Data(pool), mmap_list);
      assert TreeHolds(mmap_list);
    }

    /** The tree that has been built becomes the tree of the address space. */
    method SetTree(tree: RbTree)
      requires Valid() && tree.Valid() && tree.Contents() == mmap_list
      modifies this`mmap_tree, this`pool
      ensures Valid()
      ensures mmap_tree == tree
      ensures Areas() == old(Areas())
      ensures pool == old(pool) + {tree.nil, tree.root}
    {
      hide Ordered, At, RedBlack, Inorder;
      InorderNodes(tree.shape);
      Adopt(tree.nil);
      Adopt(tree.root);
      assert tree.Repr() <= pool;
      mmap_tree := tree;
    }

    /** The tree is the old one or a new one, and what has come to the pool is new. */
    twostate predicate TreeKept()
      reads this`mmap_tree, this`pool
    {
      && old(pool) <= pool && (forall v :: v in pool ==> v in old(pool) || fresh(v))
      && (mmap_tree == old(mmap_tree) || (mmap_tree != null && fresh(mmap_tree) && fresh(mmap_tree.nil)
                                          && fresh(mmap_tree.root)))
    }

    /** The end of insert_vma_struct: from RB_MIN_MAP_COUNT areas on there is to be a tree; it may fail to be made. */
    method MakeTree(created: bool)
      requires Valid()
      modifies this`mmap_tree, this`pool, pool`red, pool`left, pool`right, pool`parent
      ensures Valid() && Areas() == old(Areas()) && TreeKept()
      ensures mmap_tree == null <==> old(mmap_tree) == null && (map_count < RB_MIN_MAP_COUNT || !created)
    {
      hide Ordered, At, RedBlack, Inorder;
      if mmap_tree == null && map_count >= RB_MIN_MAP_COUNT {
        if created {
          assert OrderedBy(Data(Elements(mmap_list)), mmap_list);
          ghost var areas := Areas();
          var tree := BuildTree(mmap_list);
          assert Areas() == areas;
          SetTree(tree);
        }
      }
    }

    /** insert_vma_struct: an area that overlaps none of the others is added at its place. */
    method InsertVmaStruct(vma: Vma, created: bool, ghost k: nat)
      requires Valid() && Unused(vma)
      requires vma.vm_start < vma.vm_end && Place(Areas(), Area(vma.vm_start, vma.vm_end, vma.vm_flags), k)
      modifies this, Tree()`shape, pool`red, pool`left, pool`right, pool`parent
      ensures Valid() && mmap_list == old(mmap_list[..k] + [vma] + mmap_list[k..])
      ensures Areas() == old(Areas()[..k]) + [old(Area(vma.vm_start, vma.vm_end, vma.vm_flags))] + old(Areas()[k..])
      ensures TreeKept()
      ensures mmap_tree == null <==> old(mmap_tree) == null && (map_count < RB_MIN_MAP_COUNT || !created)
    {
      hide Ordered, Place;
      LinkVma(vma, k);
      MakeTree(created);
    }

    // ---------- remove_vma_struct ----------

    /** rb_delete from the tree, if there is one. */
    method RemoveFromTree(vma: Vma, ghost k: nat)
      requires Valid() && k < |mmap_list| && mmap_list[k] == vma
      modifies Tree()`shape, pool`red, pool`left, pool`right, pool`parent
      ensures TreeHolds(mmap_list[..k] + mmap_list[k + 1..])
      ensures Data(pool) == old(Data(pool))
    {
      hide Ordered;
      if mmap_tree != null {
        OrderedDistinct(Data(pool), mmap_list);
        DeleteInPlace(mmap_tree, vma, mmap_list, k);
      }
    }

    /** What taking an area off the list does to the areas. */
    static lemma {:induction false} Unlinked(d: map<Vma, Area>, list: seq<Vma>, k: nat)
      requires OrderedBy(d, list) && k < |list|
      ensures var list' := list[..k] + list[k + 1..];
              && OrderedBy(d, list') && Lists.Del(list, list[k]) == list'
              && AreasOf(d, list') == AreasOf(d, list)[..k] + AreasOf(d, list)[k + 1..]
              && (forall v :: v in list' <==> v in list && v != list[k])
    {
      var list', g := list[..k] + list[k + 1..], AreasOf(d, list);
      OrderedDistinct(d, list);
      Lists.DelAt(list, k);
      Lists.WithoutAt(list, k);
      LessOrdered(g, k);
      assert AreasOf(d, list') == g[..k] + g[k + 1..];
    }

    /** remove_vma_struct. */
    method RemoveVmaStruct(vma: Vma, ghost k: nat)
      requires Valid() && k < |mmap_list| && mmap_list[k] == vma
      modifies this`mmap_list, this`map_count, this`mmap_cache, Tree()`shape, pool`red, pool`left, pool`right
      modifies pool`parent
      ensures Valid() && mmap_list == old(mmap_list[..k] + mmap_list[k + 1..])
      ensures Areas() == old(Areas()[..k]) + old(Areas()[k + 1..])
      ensures Data(pool) == old(Data(pool))
    {
      ghost var d := Data(pool);
      Unlinked(d, mmap_list, k);
      RemoveFromTree(vma, k);
      SetList(Lists.Del(mmap_list, vma), map_count - 1, if vma == mmap_cache then null else mmap_cache);
    }

    // ---------- mm_map ----------

    /** vma_create, which fails without memory. */
    method CreateVma(start: int, end: int, flags: bv32, memory: bool) returns (vma: Vma?)
      requires Valid()
      modifies this`pool
      ensures (vma != null <==> memory)
      ensures Valid() && Areas() == old(Areas()) && (vma == null ==> pool == old(pool))
      ensures vma != null ==> fresh(vma) && Unused(vma) && pool == old(pool) + {vma}
      ensures vma != null ==> vma.vm_start == start && vma.vm_end == end && vma.vm_flags == flags
    {
      vma := null;
      if memory {
        ghost var nodes, areas := pool, Areas();
        assert allocated(nodes);
        vma := new Vma(start, end, flags);
        assert pool == nodes && Areas() == areas && TreeHolds(mmap_list);
        Adopt(vma);
      }
    }

    /** vma_create and insert_vma_struct. */
    method AddArea(start: int, end: int, flags: bv32, memory: bool, ghost k: nat) returns (vma: Vma?)
      requires Valid() && start < end && Place(Areas(), Area(start, end, flags), k)
      modifies this, Tree()`shape, pool`red, pool`left, pool`right, pool`parent
      ensures vma != null <==> memory
      ensures Valid() && TreeKept() && (vma == null ==> Areas() == old(Areas()) && mmap_list == old(mmap_list))
      ensures vma != null ==> fresh(vma) && mmap_list == old(mmap_list[..k] + [vma] + mmap_list[k..])
      ensures vma != null ==> Areas() == old(Areas())[..k] + [Area(start, end, flags)] + old(Areas())[k..]
    {
      hide Ordered, At, RedBlack, Inorder, Place, TreeHolds;
      vma := CreateVma(start, end, flags, memory);
      if vma != null {
        var created: bool := *;
        InsertVmaStruct(vma, created, k);
      }
    }

    /** mm_map. */
    method MmMap(addr: int, len: int, flags: bv32, memory: bool) returns (ret: int, vma: Vma?)
      requires Valid() && 0 <= addr < TWO_32 && 0 <= len < TWO_32
      modifies this, Tree()`shape, pool`red, pool`left, pool`right, pool`parent
      ensures Valid()
      ensures TreeKept()
      ensures ret in {0, -E_INVAL, -E_NO_MEM} && (vma != null <==> ret == 0)
      ensures Paged(old(Areas())) ==> Paged(Areas())
      ensures var start, end := RoundDown(addr), RoundUp((addr + len) % TWO_32);
              && (ret == -E_INVAL <==> !(UserAccess(start, end) && Unmapped(old(Areas()), start, end)))
              && (ret == 0 ==> Remapped(old(Areas()), Areas(), start, end, flags & !VM_SHARE))
              && (ret != 0 ==> Areas() == old(Areas()))
      ensures (ret == 0 ==> memory) && (ret == -E_NO_MEM ==> !memory)
      ensures Plain(addr, len) ==>
              && (ret == -E_INVAL <==> !(InUser(addr, len) && PagesUnmapped(old(Areas()), addr, len)))
              && (ret == 0 ==> PagesMapped(old(Areas()), Areas(), addr, len, Lists.Some(flags & !VM_SHARE)))
    {
      hide Ordered, Place, Remapped, Paged, FirstEndingAfter, RoundDown, RoundUp, Unmapped, Plain, InUser;
      hide PagesUnmapped;
      hide PagesMapped;
      var start, end := RoundDown(addr), RoundUp((addr + len) % TWO_32);
      PlainRange(Areas(), addr, len);
      if !UserAccess(start, end) {
        return -E_INVAL, null;
      }
      ghost var k;
      vma, k := FindVma(start);
      FreeAtFirst(Areas(), start, end, flags & !VM_SHARE, k);
      if vma != null && end > vma.vm_start {
        return -E_INVAL, null;
      }
      ghost var s := Areas();
      RoundedPages(addr, (addr + len) % TWO_32);
      RemappedAdded(s, start, end, flags & !VM_SHARE, k);
      if Paged(s) {
        PagedAdded(s, Area(start, end, flags & !VM_SHARE), k);
      }
      vma := AddArea(start, end, flags & !VM_SHARE, memory, k);
      ret := if vma == null then -E_NO_MEM else 0;
      PagesRemapped(s, Areas(), addr, len, flags & !VM_SHARE);
    }

    // ---------- mm_unmap ----------

    static lemma {:induction false} ResizedData(d: map<Vma, Area>, list: seq<Vma>, k: nat, start: int, end: int)
      requires OrderedBy(d, list) && k < |list| && d[list[k]].start <= start < end <= d[list[k]].end
      ensures var a := d[list[k]].(start := start, end := end);
              OrderedBy(d[list[k] := a], list) && AreasOf(d[list[k] := a], list) == AreasOf(d, list)[k := a]
    {
      var a := d[list[k]].(start := start, end := end);
      OrderedDistinct(d, list);
      ResizedOrdered(AreasOf(d, list), k, start, end);
      assert AreasOf(d[list[k] := a], list) == AreasOf(d, list)[k := a];
    }

    /** vma_resize, with what it asserts. */
    method VmaResize(vma: Vma, start: int, end: int)
      requires vma in pool && start % PGSIZE == 0 && end % PGSIZE == 0
      requires vma.vm_start <= start < end <= vma.vm_end
      modifies vma`vm_start, vma`vm_end
      ensures Data(pool) == old(Data(pool))[vma := Area(start, end, vma.vm_flags)]
      ensures vma.vm_start == start && vma.vm_end == end
    {
      vma.vm_start, vma.vm_end := start, end;
    }

    /** vma_resize of an area that stays in the list, and in the tree, where its key may change. */
    method ResizeInPlace(vma: Vma, start: int, end: int, ghost k: nat)
      requires Valid() && k < |mmap_list| && mmap_list[k] == vma
      requires start % PGSIZE == 0 && end % PGSIZE == 0 && vma.vm_start <= start < end <= vma.vm_end
      modifies vma`vm_start, vma`vm_end
      ensures Valid() && Areas() == old(Areas())[k := old(Areas())[k].(start := start, end := end)]
    {
      hide Ordered;
      ResizedData(Data(pool), mmap_list, k, start, end);
      assert allocated(pool);
      VmaResize(vma, start, end);
      assert TreeHolds(mmap_list);
    }

    /** The old area keeps what is behind the range, a new one gets what is before it. */
    method SplitAt(vma: Vma, new_vma: Vma, end: int, ghost k: nat)
      requires Valid() && k < |mmap_list| && mmap_list[k] == vma && Unused(new_vma) && new_vma.vm_flags == vma.vm_flags
      requires vma.vm_start == new_vma.vm_start < new_vma.vm_end < end < vma.vm_end
      requires end % PGSIZE == vma.vm_end % PGSIZE == 0
      modifies this, Tree()`shape, pool`red, pool`left, pool`right, pool`parent, vma`vm_start, vma`vm_end
      ensures Valid() && TreeKept()
      ensures var s := old(Areas());
              Areas() == s[..k] + [s[k].(end := old(new_vma.vm_end))] + ([s[k].(start := end)] + s[k + 1..])
    {
      ghost var s := Areas();
      assert s[k] == Area(vma.vm_start, vma.vm_end, vma.vm_flags);
      SplitPlace(s, k, new_vma.vm_end, end);
      ResizeInPlace(vma, end, vma.vm_end, k);
      var created: bool := *;
      InsertVmaStruct(new_vma, created, k);
    }

    /** mm_unmap of a range inside of one area, which falls into two. */
    method SplitArea(vma: Vma, start: int, end: int, memory: bool, ghost k: nat) returns (ret: int)
      requires Valid() && k < |mmap_list| && mmap_list[k] == vma
      requires end % PGSIZE == vma.vm_end % PGSIZE == 0 && vma.vm_start < start < end < vma.vm_end
      modifies this, Tree()`shape, pool`red, pool`left, pool`right, pool`parent, vma`vm_start, vma`vm_end
      ensures Valid() && TreeKept() && ret == if memory then 0 else -E_NO_MEM
      ensures var s := old(Areas());
              Areas() == if ret != 0 then s else s[..k] + [s[k].(end := start)] + ([s[k].(start := end)] + s[k + 1..])
    {
      var new_vma := CreateVma(vma.vm_start, start, vma.vm_flags, memory);
      if new_vma == null {
        return -E_NO_MEM;
      }
      SplitAt(vma, new_vma, end, k);
      return 0;
    }

    /** One round of the first loop of mm_unmap: the area leaves the list, `next` is the one behind it. */
    method TakeNext(vma: Vma, free: seq<Vma>, end: int, ghost list: seq<Vma>, ghost areas: seq<Area>, ghost k: nat,
                    ghost m: nat)
      returns (next: Lists.Option<Vma>, free': seq<Vma>)
      requires Valid() && k < |mmap_list| && mmap_list[k] == vma && vma.vm_start < end
      requires Taken(list, areas, k, m, free, end, mmap_list, Areas())
      modifies this`mmap_list, this`map_count, this`mmap_cache, Tree()`shape, pool`red, pool`left, pool`right
      modifies pool`parent
      ensures Valid() && Taken(list, areas, k, m + 1, free', end, mmap_list, Areas())
      ensures Data(pool) == old(Data(pool))
      ensures next == if k < |mmap_list| then Lists.Some(mmap_list[k]) else Lists.None
    {
      OrderedDistinct(Data(pool), mmap_list);
      Lists.NextAt(mmap_list, k);
      TakenNext(list, areas, k, m, free, end, mmap_list, Areas());
      next, free' := Lists.Next(mmap_list, vma), [vma] + free;
      RemoveVmaStruct(vma, k);
    }

    /**
     The first loop of mm_unmap: the areas that start before `end` leave the list, the last one is first in `free`.
     */
    method TakeOut(first: Vma, end: int, ghost k: nat) returns (free: seq<Vma>, ghost m: nat)
      requires Valid() && k < |mmap_list| && mmap_list[k] == first && first.vm_start < end
      modifies this`mmap_list, this`map_count, this`mmap_cache, Tree()`shape, pool`red, pool`left, pool`right
      modifies pool`parent
      ensures Valid() && 1 <= m
      ensures Taken(old(mmap_list), old(Areas()), k, m, free, end, mmap_list, Areas())
      ensures Data(pool) == old(Data(pool))
      ensures k < |mmap_list| ==> end <= mmap_list[k].vm_start
    {
      hide Taken, Ordered, TreeHolds, At, RedBlack, Inorder;
      ghost var list, areas := mmap_list, Areas();
      var vma, next := first, Lists.Some(first);
      free, m := [], 0;
      TakenNone(list, areas, k, end);
      while vma.vm_start < end
        invariant Valid()
        invariant Taken(list, areas, k, m, free, end, mmap_list, Areas())
        invariant k < |mmap_list| && mmap_list[k] == vma
        invariant m == 0 ==> vma.vm_start < end
        invariant Data(pool) == old(Data(pool))
        decreases |list| - m
      {
        TakenBound(list, areas, k, m, free, end, mmap_list, Areas());
        next, free := TakeNext(vma, free, end, list, areas, k, m);
        m := m + 1;
        if next == Lists.None {
          assert k >= |mmap_list|;
          break;
        }
        vma := next.value;
      }
    }

    static lemma {:induction false} OutsideData(d: map<Vma, Area>, list: seq<Vma>, vma: Vma, a: Area)
      requires OrderedBy(d, list) && vma !in list && vma in d
      ensures OrderedBy(d[vma := a], list) && AreasOf(d[vma := a], list) == AreasOf(d, list)
    {
      assert AreasOf(d[vma := a], list) == AreasOf(d, list);
    }

    /** vma_resize of an area outside of the list. */
    method ResizeUnused(vma: Vma, start: int, end: int)
      requires Valid() && Unused(vma) && start % PGSIZE == 0 && end % PGSIZE == 0
      requires vma.vm_start <= start < end <= vma.vm_end
      modifies vma`vm_start, vma`vm_end
      ensures Valid()
      ensures Areas() == old(Areas())
      ensures vma.vm_start == start && vma.vm_end == end
    {
      hide Ordered;
      ghost var d := Data(pool);
      assert allocated(pool);
      OutsideData(d, mmap_list, vma, Area(start, end, vma.vm_flags));
      VmaResize(vma, start, end);
      assert TreeHolds(mmap_list);
    }

    /** An area outside of the list is resized and goes back into it. */
    method Reinsert(vma: Vma, start: int, end: int, ghost k: nat)
      requires Valid() && Unused(vma) && start % PGSIZE == 0 && end % PGSIZE == 0
      requires vma.vm_start <= start < end <= vma.vm_end && Place(Areas(), Area(start, end, vma.vm_flags), k)
      modifies this, Tree()`shape, pool`red, pool`left, pool`right, pool`parent, vma`vm_start, vma`vm_end
      ensures Valid() && TreeKept()
      ensures Areas() == old(Areas()[..k]) + [Area(start, end, vma.vm_flags)] + old(Areas()[k..])
      ensures forall v :: v in mmap_list ==> v == vma || v in old(mmap_list)
    {
      hide Ordered, Place, TreeHolds;
      ResizeUnused(vma, start, end);
      var created: bool := *;
      InsertVmaStruct(vma, created, k);
    }

    /** One round of the second loop of mm_unmap: what is left of the area, if anything, goes back into the list. */
    method PutBack(vma: Vma, start: int, end: int, ghost k: nat) returns (un: (int, int))
      requires Valid() && Unused(vma) && start % PGSIZE == 0 && end % PGSIZE == 0
      requires vma.vm_start % PGSIZE == 0 && vma.vm_end % PGSIZE == 0 && vma.vm_start < vma.vm_end
      requires Meets([Area(vma.vm_start, vma.vm_end, vma.vm_flags)], start, end)
      requires Place(Areas(), Area(vma.vm_start, vma.vm_end, vma.vm_flags), k)
      modifies this, Tree()`shape, pool`red, pool`left, pool`right, pool`parent, vma`vm_start, vma`vm_end
      ensures Valid()
      ensures TreeKept()
      ensures forall v :: v in mmap_list ==> v == vma || v in old(mmap_list)
      ensures un == Clip(old(Area(vma.vm_start, vma.vm_end, vma.vm_flags)), start, end)
      ensures Areas() == old(Areas())[..k] + Trim([old(Area(vma.vm_start, vma.vm_end, vma.vm_flags))], start, end)
              + old(Areas())[k..]
    {
      hide Ordered, Meets, Place;
      ghost var a := Area(vma.vm_start, vma.vm_end, vma.vm_flags);
      TrimOne(Areas(), a, start, end, k);
      if vma.vm_start < start {
        un := (start, vma.vm_end);
        Reinsert(vma, vma.vm_start, start, k);
      } else if end < vma.vm_end {
        un := (vma.vm_start, end);
        Reinsert(vma, end, vma.vm_end, k);
      } else {
        un := (vma.vm_start, vma.vm_end);
      }
    }

    /** The same, in terms of all areas that overlap the range: those behind the one at `j` are done. */
    method PutBackNext(vma: Vma, start: int, end: int, ghost pre: seq<Area>, ghost mid: seq<Area>,
                       ghost post: seq<Area>, ghost j: nat, ghost rest: seq<Vma>)
      returns (un: (int, int))
      requires forall v :: v in rest ==> Unused(v) && v != vma
      requires Valid() && Unused(vma) && start % PGSIZE == 0 && end % PGSIZE == 0
      requires Ordered(pre + mid + post) && Paged(mid) && Meets(mid, start, end)
      requires j < |mid| && Area(vma.vm_start, vma.vm_end, vma.vm_flags) == mid[j]
      requires Areas() == pre + Trim(mid[j + 1..], start, end) + post
      modifies this, Tree()`shape, pool`red, pool`left, pool`right, pool`parent, vma`vm_start, vma`vm_end
      ensures Valid()
      ensures TreeKept()
      ensures forall v :: v in rest ==> Unused(v)
      ensures forall v :: v in rest ==>
          Area(v.vm_start, v.vm_end, v.vm_flags) == old(Area(v.vm_start, v.vm_end, v.vm_flags))
      ensures Areas() == pre + Trim(mid[j..], start, end) + post
      ensures un == Clip(mid[j], start, end)
    {
      TrimNext(pre, mid, post, start, end, j);
      un := PutBack(vma, start, end, |pre|);
    }

    /** The areas on the free list are those in `mid`, the last one first. */
    static ghost predicate Freed(d: map<Vma, Area>, free: seq<Vma>, mid: seq<Area>) {
      |free| == |mid| && forall i :: 0 <= i < |mid| ==> free[i] in d && d[free[i]] == mid[|mid| - 1 - i]
    }

    static lemma {:induction false} FreedNext(d: map<Vma, Area>, rest: seq<Vma>, mid: seq<Area>)
      requires rest != [] && |rest| <= |mid| && Freed(d, rest, mid[..|rest|]) && Lists.NoDup(rest)
      ensures rest[0] in d && d[rest[0]] == mid[|rest| - 1] && Freed(d, rest[1..], mid[..|rest| - 1])
      ensures Lists.NoDup(rest[1..]) && rest[0] !in rest[1..]
      ensures forall v :: v in rest[1..] ==> v in rest
    {
    }

    /** The second loop of mm_unmap; it returns the ranges for unmap_range. */
    method PutBackAll(free: seq<Vma>, start: int, end: int, ghost pre: seq<Area>, ghost mid: seq<Area>,
                      ghost post: seq<Area>)
      returns (cleared: seq<(int, int)>)
      requires Valid() && Areas() == pre + post && start % PGSIZE == 0 && end % PGSIZE == 0
      requires Ordered(pre + mid + post) && Paged(mid) && Meets(mid, start, end)
      requires Lists.NoDup(free) && (forall v :: v in free ==> Unused(v)) && Freed(Data(pool), free, mid)
      modifies this, Tree()`shape, pool`red, pool`left, pool`right, pool`parent, pool`vm_start, pool`vm_end
      ensures Valid()
      ensures Areas() == pre + Trim(mid, start, end) + post
      ensures cleared == Clips(mid, start, end)
      ensures TreeKept()
    {
      hide Ordered, At, RedBlack, Inorder, TreeHolds, Paged, Meets;
      cleared := [];
      ghost var d := Data(pool);
      var rest := free;
      assert mid[|rest|..] == [] && mid[..|rest|] == mid;
      assert pre + [] + post == pre + post;
      while rest != []
        invariant Valid()
        invariant TreeKept()
        invariant |rest| <= |mid|
        invariant Areas() == pre + Trim(mid[|rest|..], start, end) + post
        invariant cleared == Clips(mid[|rest|..], start, end)
        invariant Lists.NoDup(rest)
        invariant Freed(d, rest, mid[..|rest|])
        invariant forall v :: v in rest ==> Unused(v)
        invariant forall v :: v in rest ==> Area(v.vm_start, v.vm_end, v.vm_flags) == d[v]
      {
        FreedNext(d, rest, mid);
        ClipsNext(mid, start, end, |rest| - 1);
        var un := PutBackNext(rest[0], start, end, pre, mid, post, |rest| - 1, rest[1..]);
        assert |rest[1..]| == |rest| - 1;
        assert cleared + [un] == Clips(mid[|rest| - 1..], start, end);
        cleared := cleared + [un];
        rest := rest[1..];
      }
      assert mid[0..] == mid;
    }

    /** The sentinels of the tree are no areas. */
    lemma {:induction false} SentinelsApart()
      requires Valid()
      ensures forall v :: v in mmap_list ==> v !in Sentinels()
    {
      if mmap_tree != null {
        InorderNodes(mmap_tree.shape);
      }
    }

    /** The areas that were taken out are those that overlap the range, and they are not in use any more. */
    static lemma {:induction false} TakenFreed(d: map<Vma, Area>, list: seq<Vma>, k: nat, m: nat, free: seq<Vma>,
                                               end: int,
                                               list': seq<Vma>, areas': seq<Area>)
      requires OrderedBy(d, list) && Taken(list, AreasOf(d, list), k, m, free, end, list', areas')
      ensures Lists.NoDup(free) && Freed(d, free, AreasOf(d, list)[k..k + m])
      ensures forall v :: v in free ==> v in list && v !in list'
      ensures k + m <= |list| && forall i :: k <= i < k + m ==> AreasOf(d, list)[i].start < end
      ensures k + m < |list| ==> k < |list'| && list'[k] == list[k + m]
      ensures areas' == AreasOf(d, list)[..k] + AreasOf(d, list)[k + m..]
    {
      OrderedDistinct(d, list);
    }

    /** mm_unmap, when no area reaches out of the range on both sides. */
    method UnmapAreas(first: Vma, start: int, end: int, ghost k: nat) returns (cleared: seq<(int, int)>)
      requires Valid() && Paged(Areas()) && UserPages(start, end) && start < end
      requires k < |mmap_list| && mmap_list[k] == first && FirstEndingAfter(Areas(), start, k)
      requires first.vm_start < end && (start <= first.vm_start || first.vm_end <= end)
      modifies this, Tree()`shape, pool`red, pool`left, pool`right, pool`parent, pool`vm_start, pool`vm_end
      ensures Valid()
      ensures TreeKept()
      ensures Paged(Areas()) && Subtracted(old(Areas()), Areas(), start, end)
      ensures ClearsMapped(cleared, old(Areas()), start, end)
      ensures PageRanges(cleared)
    {
      hide Taken, Meets, FirstEndingAfter, Ordered, Trim, Clips, Subtracted, ClearsMapped, Overlapping, Paged;
      hide PageRanges, Freed, At, RedBlack, Inorder;
      ghost var d, list, areas := Data(pool), mmap_list, Areas();
      assert areas[k] == Area(first.vm_start, first.vm_end, first.vm_flags);
      SentinelsApart();
      var free;
      ghost var m;
      free, m := TakeOut(first, end, k);
      TakenFreed(d, list, k, m, free, end, mmap_list, Areas());
      assert forall v :: v in free ==> Unused(v);
      assert k + m < |list| ==> areas[k + m] == Area(mmap_list[k].vm_start, mmap_list[k].vm_end, mmap_list[k].vm_flags);
      OverlappingAre(areas, k, m, start, end);
      CutOut(areas, k, m, start, end);
      cleared := PutBackAll(free, start, end, areas[..k], areas[k..k + m], areas[k + m..]);
    }

    /** mm_unmap; `cleared` are the ranges that it hands to unmap_range. */
    method MmUnmap(addr: int, len: int, memory: bool) returns (ret: int, cleared: seq<(int, int)>)
      requires Valid() && Paged(Areas()) && 0 <= addr < TWO_32 && 0 <= len < TWO_32
      modifies this, Tree()`shape, pool`red, pool`left, pool`right, pool`parent, pool`vm_start, pool`vm_end
      ensures Valid()
      ensures TreeKept()
      ensures Paged(Areas()) && ret in {0, -E_INVAL, -E_NO_MEM}
      ensures ret == -E_INVAL <==> !UserAccess(RoundDown(addr), RoundUp((addr + len) % TWO_32))
      ensures ret != 0 ==> Areas() == old(Areas()) && cleared == []
      ensures ret == 0 ==> Subtracted(old(Areas()), Areas(), RoundDown(addr), RoundUp((addr + len) % TWO_32))
      ensures ret == 0 ==> ClearsMapped(cleared, old(Areas()), RoundDown(addr), RoundUp((addr + len) % TWO_32))
      ensures PageRanges(cleared)
      ensures ret != -E_INVAL ==>
        (ret == -E_NO_MEM <==> !memory && Splits(old(Areas()), RoundDown(addr), RoundUp((addr + len) % TWO_32)))
      ensures Plain(addr, len) ==>
        && (ret == -E_INVAL <==> !InUser(addr, len))
        && (ret == 0 ==> PagesMapped(old(Areas()), Areas(), addr, len, Lists.None))
    {
      hide Ordered, FirstEndingAfter, Subtracted, ClearsMapped, PageRanges, Paged, RoundDown, RoundUp, Unmapped, At;
      hide RedBlack, Inorder, TreeHolds, Splits, Plain, InUser, PagesMapped;
      var start, end := RoundDown(addr), RoundUp((addr + len) % TWO_32);
      ghost var s := Areas();
      PlainRange(s, addr, len);
      cleared := [];
      NoRanges();
      if !UserAccess(start, end) {
        return -E_INVAL, [];
      }
      RoundedPages(addr, (addr + len) % TWO_32);
      var vma;
      ghost var k;
      vma, k := FindVma(start);
      FreeAtFirst(Areas(), start, end, 0, k);
      SplitsFirst(s, start, end, k);
      if vma == null || end <= vma.vm_start {
        CutNothing(Areas(), start, end);
        PagesSubtracted(s, Areas(), addr, len);
        return 0, [];
      }
      assert Areas()[k] == Area(vma.vm_start, vma.vm_end, vma.vm_flags);
      if vma.vm_start < start && end < vma.vm_end {
        PagedAt(Areas(), k);
        CutInside(Areas(), k, start, end);
        ret := SplitArea(vma, start, end, memory, k);
        if ret == 0 {
          PagesSubtracted(s, Areas(), addr, len);
          cleared := [(start, end)];
        }
      } else {
        cleared := UnmapAreas(vma, start, end, k);
        PagesSubtracted(s, Areas(), addr, len);
        ret := 0;
      }
    }

    // ---------- mm_brk ----------

    /** The area at `k` grows up to `end`. */
    method GrowInPlace(vma: Vma, end: int, ghost k: nat)
      requires Valid() && Paged(Areas()) && k < |mmap_list| && mmap_list[k] == vma
      requires vma.vm_end < end && Unmapped(Areas(), vma.vm_end, end) && UserPages(vma.vm_end, end)
      modifies vma`vm_end
      ensures Valid()
      ensures Paged(Areas())
      ensures Remapped(old(Areas()), Areas(), old(vma.vm_end), end, vma.vm_flags)
    {
      hide Ordered, Remapped, Unmapped;
      ghost var d, s := Data(pool), Areas();
      OrderedDistinct(d, mmap_list);
      Grown(s, vma.vm_end, end, k);
      assert UserPages(s[k].start, s[k].end);
      vma.vm_end := end;
      assert Data(pool) == d[vma := Area(vma.vm_start, end, vma.vm_flags)];
      assert Areas() == s[k := s[k].(end := end)];
      assert TreeHolds(mmap_list);
    }

    /** mm_brk after mm_unmap: the free range joins the area before it, or becomes an area of its own. */
    method MapBrk(start: int, end: int, memory: bool) returns (ret: int)
      requires Valid() && Paged(Areas()) && UserPages(start, end) && start < end && Unmapped(Areas(), start, end)
      modifies this, Tree()`shape, pool`red, pool`left, pool`right, pool`parent, pool`vm_end
      ensures Valid()
      ensures TreeKept()
      ensures Paged(Areas()) && ret in {0, -E_NO_MEM}
      ensures ret == 0 ==> Remapped(old(Areas()), Areas(), start, end, VM_READ | VM_WRITE)
      ensures ret != 0 ==> Areas() == old(Areas())
      ensures ret != 0 <==> !memory && Flags(old(Areas()), start - 1) != Lists.Some(VM_READ | VM_WRITE)
    {
      hide Ordered, Place, Remapped, Paged, FirstEndingAfter, Flags, Unmapped;
      var vm_flags := VM_READ | VM_WRITE;
      var vma;
      ghost var k;
      vma, k := FindVma(start - 1);
      EndsHere(Areas(), start, end, k);
      if vma != null {
        assert Areas()[k] == Area(vma.vm_start, vma.vm_end, vma.vm_flags);
        if vma.vm_end == start && vma.vm_flags == vm_flags {
          GrowInPlace(vma, end, k);
          return 0;
        }
      }
      BrkPlace(Areas(), start, end, vm_flags, k);
      k := if k < |mmap_list| && Areas()[k].end == start then k + 1 else k;
      RemappedAdded(Areas(), start, end, vm_flags, k);
      PagedAdded(Areas(), Area(start, end, vm_flags), k);
      vma := AddArea(start, end, vm_flags, memory, k);
      ret := if vma == null then -E_NO_MEM else 0;
    }

    /** mm_unmap of a range that is rounded already. */
    method UnmapRounded(start: int, end: int, memory: bool) returns (ret: int, cleared: seq<(int, int)>)
      requires Valid() && Paged(Areas()) && UserAccess(start, end) && UserPages(start, end)
      modifies this, Tree()`shape, pool`red, pool`left, pool`right, pool`parent, pool`vm_start, pool`vm_end
      ensures Valid()
      ensures TreeKept()
      ensures Paged(Areas())
      ensures ret in {0, -E_NO_MEM}
      ensures ret == 0 ==> Subtracted(old(Areas()), Areas(), start, end)
      ensures ret == 0 ==> ClearsMapped(cleared, old(Areas()), start, end)
      ensures ret != 0 ==> Areas() == old(Areas()) && cleared == []
      ensures ret != 0 <==> !memory && Splits(old(Areas()), start, end)
      ensures PageRanges(cleared)
    {
      hide Splits;
      hide Ordered, Place, FirstEndingAfter, Trim, Clips, Meets, Taken, Subtracted, ClearsMapped, Remapped, Unmapped;
      hide Paged, PageRanges, Overlapping, RoundDown, RoundUp;
      RoundedAgain(start, end);
      ret, cleared := MmUnmap(start, end - start, memory);
    }

    /** mm_brk of a range that is in user memory. */
    method Brk(start: int, end: int, split: bool, memory: bool) returns (ret: int, cleared: seq<(int, int)>)
      requires Valid() && Paged(Areas()) && UserAccess(start, end) && UserPages(start, end)
      modifies this, Tree()`shape, pool`red, pool`left, pool`right, pool`parent, pool`vm_start, pool`vm_end
      ensures Valid()
      ensures TreeKept()
      ensures Paged(Areas())
      ensures ret in {0, -E_NO_MEM}
      ensures ret == -E_NO_MEM ==>
          (Areas() == old(Areas()) && cleared == []) || Clears(old(Areas()), Areas(), cleared, start, end)
      ensures ret == 0 ==> Remapped(old(Areas()), Areas(), start, end, VM_READ | VM_WRITE)
      ensures ret == 0 ==> ClearsMapped(cleared, old(Areas()), start, end)
      ensures PageRanges(cleared)
      ensures ret == -E_NO_MEM <==> BrkFails(old(Areas()), start, end, split, memory)
      ensures ret == -E_NO_MEM && !(!split && Splits(old(Areas()), start, end)) ==>
          Clears(old(Areas()), Areas(), cleared, start, end)
    {
      hide ClearsMapped, PageRanges, Splits;
      ghost var s := Areas();
      ret, cleared := UnmapRounded(start, end, split);
      if ret == 0 {
        ghost var t := Areas();
        assert Subtracted(s, t, start, end);
        assert Unmapped(t, start, end);
        ret := MapBrk(start, end, memory);
        if ret == 0 {
          RemappedAfter(s, t, Areas(), start, end, VM_READ | VM_WRITE);
        }
      }
    }

    /**
     mm_brk: when it fails for want of memory, the range may have been unmapped already. `cleared` are the ranges
     that it hands to unmap_range.
     */
    method MmBrk(addr: int, len: int, split: bool, memory: bool) returns (ret: int, cleared: seq<(int, int)>)
      requires Valid() && Paged(Areas()) && 0 <= addr < TWO_32 && 0 <= len < TWO_32
      modifies this, Tree()`shape, pool`red, pool`left, pool`right, pool`parent, pool`vm_start, pool`vm_end
      ensures Valid()
      ensures TreeKept()
      ensures Paged(Areas())
      ensures ret in {0, -E_INVAL, -E_NO_MEM}
      ensures ret == -E_INVAL <==> !UserAccess(RoundDown(addr), RoundUp((addr + len) % TWO_32))
      ensures ret == -E_INVAL ==> Areas() == old(Areas()) && cleared == []
      ensures ret == -E_NO_MEM ==> (Areas() == old(Areas()) && cleared == [])
                                   || Clears(old(Areas()), Areas(), cleared, RoundDown(addr),
                                             RoundUp((addr + len) % TWO_32))
      ensures ret == 0 ==> ClearsMapped(cleared, old(Areas()), RoundDown(addr), RoundUp((addr + len) % TWO_32))
      ensures PageRanges(cleared)
      ensures ret == 0 ==>
          Remapped(old(Areas()), Areas(), RoundDown(addr), RoundUp((addr + len) % TWO_32), VM_READ | VM_WRITE)
      ensures ret != -E_INVAL ==>
        (ret == -E_NO_MEM <==>
         BrkFails(old(Areas()), RoundDown(addr), RoundUp((addr + len) % TWO_32), split, memory))
      ensures Plain(addr, len) ==>
        && (ret == -E_INVAL <==> !InUser(addr, len))
        && (ret == 0 ==> PagesMapped(old(Areas()), Areas(), addr, len, Lists.Some(VM_READ | VM_WRITE)))
    {
      hide ClearsMapped, PageRanges, Subtracted, Remapped, Plain, InUser, PagesMapped, BrkFails, RoundDown, RoundUp;
      hide Ordered, At, RedBlack, Inorder, TreeHolds, Paged;
      var start, end := RoundDown(addr), RoundUp((addr + len) % TWO_32);
      ghost var s := Areas();
      PlainRange(s, addr, len);
      if !UserAccess(start, end) {
        NoRanges();
        return -E_INVAL, [];
      }
      RoundedPages(addr, (addr + len) % TWO_32);
      ret, cleared := Brk(start, end, split, memory);
      PagesRemapped(s, Areas(), addr, len, VM_READ | VM_WRITE);
    }

    // ---------- get_unmapped_area ----------

    /** get_unmapped_area: the highest free range of `len` addresses, or 0 if there is none. */
    method GetUnmappedArea(len: int) returns (start: int)
      requires Valid() && Paged(Areas()) && 0 <= len < TWO_32
      ensures start != 0 ==> FreeRange(Areas(), start, len) && forall x :: FreeRange(Areas(), x, len) ==> x <= start
      ensures start == 0 && len > 0 ==> forall x :: !FreeRange(Areas(), x, len)
      ensures len == 0 ==> start == 0
    {
      if len == 0 || len > USERTOP {
        return 0;
      }
      start := USERTOP - len;
      for i := |mmap_list| downto 0
        invariant FreeBelow(Areas(), i, start, len) && 0 <= start
      {
        var vma := mmap_list[i];
        assert Areas()[i] == Area(vma.vm_start, vma.vm_end, vma.vm_flags);
        FreeStep(Areas(), i, start, len);
        if start >= vma.vm_end {
          return start;
        }
        if start + len > vma.vm_start {
          if len >= vma.vm_start {
            return 0;
          }
          start := vma.vm_start - len;
        }
      }
      return if start >= USERBASE then start else 0;
    }

    // ---------- user_mem_check ----------

    /** The part of user_mem_check for a process with an address space. */
    method UserRangeCheck(addr: int, len: int, write: bool) returns (ok: bool)
      requires Valid() && 0 <= addr < TWO_32 && 0 <= len < TWO_32
      modifies this`mmap_cache
      ensures Valid()
      ensures Areas() == old(Areas())
      ensures ok <==> UserAccess(addr, (addr + len) % TWO_32)
                      && forall x :: addr <= x < (addr + len) % TWO_32 ==> Permits(Areas(), x, write)
    {
      var start, end := addr, (addr + len) % TWO_32;
      if !UserAccess(start, end) {
        return false;
      }
      ghost var s := Areas();
      while start < end
        invariant Valid()
        invariant Areas() == s
        invariant addr <= start
        invariant forall x :: addr <= x < start && x < end ==> Permits(s, x, write)
        decreases end - start
      {
        var vma;
        ghost var k;
        vma, k := FindVma(start);
        PermitsFrom(s, start, write, k);
        if vma == null {
          assert !Permits(s, start, write);
          return false;
        }
        assert s[k] == Area(vma.vm_start, vma.vm_end, vma.vm_flags);
        if start < vma.vm_start || vma.vm_flags & (if write then VM_WRITE else VM_READ) == 0
           || (write && vma.vm_flags & VM_STACK != 0 && start < vma.vm_start + PGSIZE) {
          assert !Permits(s, start, write);
          return false;
        }
        start := vma.vm_end;
      }
      return true;
    }

    // ---------- dup_mmap ----------

    /** The area at `i` is copied to the front of the new list, which holds those behind it. */
    method CopyArea(start: int, end: int, flags: bv32, memory: bool, ghost s: seq<Area>,
                    ghost i: nat) returns (vma: Vma?)
      requires Valid()
      requires Ordered(s) && i < |s| && Areas() == s[i + 1..] && s[i] == Area(start, end, flags)
      modifies this, Tree()`shape, pool`red, pool`left, pool`right, pool`parent
      ensures vma != null <==> memory
      ensures Valid()
      ensures TreeKept()
      ensures Areas() == s[if vma == null then i + 1 else i..]
    {
      hide At, RedBlack, Inorder, TreeHolds;
      assert s[i..] == [] + [s[i]] + s[i + 1..];
      assert forall j :: i < j < |s| ==> s[i].end <= s[j].start;
      vma := AddArea(start, end, flags, memory, 0);
    }
  }

  /** KERN_ACCESS. */
  predicate KernAccess(start: int, end: int) {
    KERNBASE <= start < end <= KERNTOP
  }

  /**
   user_mem_check: every address of the range is mapped for the access, and a write hits no guard page of a stack; for a
   kernel thread the range is in kernel memory.
   */
  method UserMemCheck(mm: Mm?, addr: int, len: int, write: bool) returns (ok: bool)
    requires (mm != null ==> mm.Valid()) && 0 <= addr < TWO_32 && 0 <= len < TWO_32
    modifies if mm != null then {mm} else {}
    ensures mm == null ==> (ok <==> KernAccess(addr, (addr + len) % TWO_32))
    ensures mm != null ==> mm.Valid() && mm.Areas() == old(mm.Areas())
    ensures mm != null ==> (ok <==> UserAccess(addr, (addr + len) % TWO_32)
                                    && forall x :: addr <= x < (addr + len) % TWO_32 ==> Permits(mm.Areas(), x, write))
  {
    hide Ordered, At, RedBlack, Inorder, Mm.TreeHolds;
    if mm != null {
      ok := mm.UserRangeCheck(addr, len, write);
    } else {
      ok := KernAccess(addr, (addr + len) % TWO_32);
    }
  }
}
