/**
 The buddy allocator (kern/mm/buddy_pmm.c): page descriptors with a flag and an order at the head of
 each free block, a list and a counter for each order, and zones that blocks are aligned to.
 */
module Buddy {
  import opened Blocks
  import Lists

  const MAX_ZONE_NUM: nat := 10

  /** A page descriptor; of the flags, `reserved` and `head` (PG_property) are on their own. */
  datatype Page = Page(ref: int, reserved: bool, head: bool, others: bv32, property: nat, zone_num: int)

  /** The free blocks that the descriptors show. */
  ghost function Heads(ps: seq<Page>): Blocks {
    map p | 0 <= p < |ps| && ps[p].head :: ps[p].property
  }

  /** The zones, as the descriptors record them. */
  ghost predicate Described(ps: seq<Page>, zones: seq<Zone>, w: Layout) {
    && InZones(w) && Zoned(w)
    && (forall p :: p in w ==>
          0 <= p < |ps| && !ps[p].reserved && 0 <= ps[p].zone_num < |zones| && w[p] == zones[ps[p].zone_num])
    && (forall p :: 0 <= p < |ps| && p !in w ==> ps[p].reserved && !ps[p].head)
    && (forall i :: 0 <= i < |zones| ==> zones[i].base in w && w[zones[i].base] == zones[i])
    && (forall i, j :: 0 <= i < j < |zones| ==> zones[i] != zones[j])
  }

  lemma {:induction false} HeadSet(ps: seq<Page>, p: int, k: nat)
    requires 0 <= p < |ps|
    ensures Heads(ps[p := ps[p].(head := true, property := k)]) == Heads(ps)[p := k]
  {
  }

  lemma {:induction false} HeadCleared(ps: seq<Page>, p: int, page: Page)
    requires 0 <= p < |ps| && !page.head
    ensures Heads(ps[p := page]) == Heads(ps) - {p}
  {
  }

  lemma {:induction false} DescribedSet(ps: seq<Page>, zones: seq<Zone>, w: Layout, p: int, page: Page)
    requires Described(ps, zones, w) && p in w && !page.reserved && page.zone_num == ps[p].zone_num
    ensures Described(ps[p := page], zones, w)
  {
  }

  // ---------- free lists ----------

  /** Each free block is in the list of its order, once. */
  ghost predicate Listed(fl: seq<seq<int>>, b: Blocks) {
    && |fl| == MAX_ORDER + 1
    && (forall k :: 0 <= k <= MAX_ORDER ==> Lists.NoDup(fl[k]))
    && (forall k, p {:trigger p in fl[k]} {:trigger IsBlock(b, p, k)} ::
          0 <= k <= MAX_ORDER ==> (p in fl[k] <==> IsBlock(b, p, k)))
  }

  ghost predicate Counted(fl: seq<seq<int>>, nr: seq<int>) {
    && |fl| == |nr| == MAX_ORDER + 1
    && forall k :: 0 <= k <= MAX_ORDER ==> nr[k] == |fl[k]|
  }

  /** The number of pages in the blocks of the orders below `k`. */
  function Total(nr: seq<int>, k: nat): int
    requires k <= |nr|
  {
    if k == 0 then 0 else Total(nr, k - 1) + nr[k - 1] * Pow2(k - 1)
  }

  lemma {:induction false} TotalChange(nr: seq<int>, k: nat, j: nat, d: int)
    requires j <= |nr| && k < |nr|
    ensures Total(nr[k := nr[k] + d], j) == Total(nr, j) + if k < j then d * Pow2(k) else 0
  {
    if j > 0 {
      TotalChange(nr, k, j - 1, d);
      if k == j - 1 {
        assert (nr[k] + d) * Pow2(k) == nr[k] * Pow2(k) + d * Pow2(k);
      }
    }
  }

  lemma {:induction false} ListAdded(fl: seq<seq<int>>, b: Blocks, p: int, k: nat)
    requires Listed(fl, b) && p !in b && k <= MAX_ORDER
    ensures Listed(fl[k := [p] + fl[k]], b[p := k])
  {
    var fl', b' := fl[k := [p] + fl[k]], b[p := k];
    assert p !in fl[k] by {
      assert !IsBlock(b, p, k);
    }
    forall j, q | 0 <= j <= MAX_ORDER
      ensures q in fl'[j] <==> IsBlock(b', q, j)
    {
      assert q in fl[j] <==> IsBlock(b, q, j);
    }
  }

  lemma {:induction false} ListRemoved(fl: seq<seq<int>>, b: Blocks, p: int, k: nat)
    requires Listed(fl, b) && k <= MAX_ORDER && IsBlock(b, p, k)
    ensures p in fl[k] && Listed(fl[k := Lists.Del(fl[k], p)], b - {p})
    ensures |Lists.Del(fl[k], p)| == |fl[k]| - 1
  {
    assert p in fl[k];
    var i :| 0 <= i < |fl[k]| && fl[k][i] == p;
    Lists.DelAt(fl[k], i);
    Lists.WithoutAt(fl[k], i);
    var fl', b' := fl[k := Lists.Del(fl[k], p)], b - {p};
    forall j, q | 0 <= j <= MAX_ORDER
      ensures q in fl'[j] <==> IsBlock(b', q, j)
    {
      assert q in fl[j] <==> IsBlock(b, q, j);
    }
  }

  /** The free lists and counters are those of the blocks `b`, which hold the pages in `free`. */
  ghost predicate CoreOf(w: Layout, free: set<int>, fl: seq<seq<int>>, nr: seq<int>, b: Blocks) {
    Good(w, b) && FreePages(b, free) && Listed(fl, b) && Counted(fl, nr) && Total(nr, |nr|) == |free|
  }

  lemma {:induction false} CoreAdded(w: Layout, free: set<int>, fl: seq<seq<int>>, nr: seq<int>, b: Blocks, p: int,
                                     k: nat)
    requires CoreOf(w, free, fl, nr, b) && Aligned(w, p, k) && ApartFrom(b, p, k)
    requires k < MAX_ORDER ==> !BuddyFree(w, b, p, k)
    ensures k < |fl| && k < |nr| && free !! Range(p, Pow2(k))
    ensures CoreOf(w, free + Range(p, Pow2(k)), fl[k := [p] + fl[k]], nr[k := nr[k] + 1], b[p := k])
  {
    AddBlock(w, b, free, p, k);
    ListAdded(fl, b, p, k);
    InRange(p, Pow2(k));
    CountAdded(fl, nr, free, Range(p, Pow2(k)), p, k);
  }

  lemma {:induction false} CountAdded(fl: seq<seq<int>>, nr: seq<int>, free: set<int>, r: set<int>, p: int, k: nat)
    requires Counted(fl, nr) && Total(nr, |nr|) == |free| && free !! r && k <= MAX_ORDER && |r| == Pow2(k)
    ensures Counted(fl[k := [p] + fl[k]], nr[k := nr[k] + 1])
    ensures Total(nr[k := nr[k] + 1], |nr|) == |free + r|
  {
    TotalChange(nr, k, |nr|, 1);
    assert |free + r| == |free| + |r|;
  }

  lemma {:induction false} CoreRemoved(w: Layout, free: set<int>, fl: seq<seq<int>>, nr: seq<int>, b: Blocks, p: int,
                                       k: nat)
    requires CoreOf(w, free, fl, nr, b) && k <= MAX_ORDER && IsBlock(b, p, k)
    ensures k < |fl| && k < |nr| && p in fl[k] && Range(p, Pow2(k)) <= free && ApartFrom(b - {p}, p, k)
    ensures Aligned(w, p, k)
    ensures CoreOf(w, free - Range(p, Pow2(k)), fl[k := Lists.Del(fl[k], p)], nr[k := nr[k] - 1], b - {p})
  {
    RemoveBlock(w, b, free, p);
    ListRemoved(fl, b, p, k);
    InRange(p, Pow2(k));
    CountRemoved(fl, nr, free, Range(p, Pow2(k)), p, k);
  }

  lemma {:induction false} CountRemoved(fl: seq<seq<int>>, nr: seq<int>, free: set<int>, r: set<int>, p: int, k: nat)
    requires Counted(fl, nr) && Total(nr, |nr|) == |free| && r <= free && k <= MAX_ORDER && |r| == Pow2(k)
    requires p in fl[k] && |Lists.Del(fl[k], p)| == |fl[k]| - 1
    ensures Counted(fl[k := Lists.Del(fl[k], p)], nr[k := nr[k] - 1])
    ensures Total(nr[k := nr[k] - 1], |nr|) == |free - r|
  {
    TotalChange(nr, k, |nr|, -1);
    assert free == (free - r) + r;
    assert |free - r| == |free| - |r|;
  }

  /** The second half of a block that is being split can be linked as a free block. */
  lemma {:induction false} SplitReady(w: Layout, free: set<int>, fl: seq<seq<int>>, nr: seq<int>, b: Blocks, p: int,
                                      k: nat)
    requires CoreOf(w, free, fl, nr, b) && Aligned(w, p, k + 1) && ApartFrom(b, p, k + 1)
    ensures var q := p + Pow2(k);
            && q in w && Aligned(w, q, k) && Aligned(w, p, k) && q != p
            && ApartFrom(b, q, k) && !BuddyFree(w, b, q, k) && ApartFrom(b[q := k], p, k)
    ensures Pow2(k + 1) == 2 * Pow2(k)
  {
    Halves(w, p, k + 1);
    HalvesApart(b, p, k + 1);
  }

  lemma {:induction false} MoveHalf<T>(free: set<T>, block: set<T>, first: set<T>, second: set<T>, all: set<T>)
    requires free + block == all && free !! block && block == first + second && first !! second
    ensures (free + second) + first == all && free + second !! first
  {
  }

  /** Of a block taken from `free0`, all but `first` has come back. */
  lemma {:induction false} KeepFirst<T>(free0: set<T>, block: set<T>, first: set<T>, free: set<T>)
    requires block <= free0 && free + first == (free0 - block) + block && free !! first
    ensures first <= free0 && free == free0 - first
  {
  }

  lemma {:induction false} KeepHead<T>(free0: set<T>, block: set<T>, head: set<T>, tail: set<T>)
    requires block <= free0 && block == head + tail && head !! tail
    ensures head <= free0 && (free0 - block) + tail == free0 - head && free0 - block !! tail
  {
  }

  /** Behind the first `a` pages of a run that is not free come `m` more. */
  lemma {:induction false} PartOfRun(free: set<int>, p: int, a: nat, m: nat, n: nat)
    requires a + m <= n && free !! Range(p, n)
    ensures free + Range(p, a) !! Range(p + a, m)
    ensures (free + Range(p, a)) + Range(p + a, m) == free + Range(p, a + m)
  {
    RangeHalves(p, a, m);
    RangeHalves(p, a + m, n - a - m);
  }

  lemma {:induction false} SetApart(m: Blocks, p: int, q: int, k: nat)
    requires p != q
    ensures m[q := k] - {p} == (m - {p})[q := k]
  {
  }

  lemma {:induction false} InList(w: Layout, free: set<int>, fl: seq<seq<int>>, nr: seq<int>, b: Blocks, p: int, k: nat)
    requires CoreOf(w, free, fl, nr, b) && k < |fl| && p in fl[k]
    ensures IsBlock(b, p, k)
  {
    assert p in fl[k] <==> IsBlock(b, p, k);
  }

  lemma {:induction false} HeadAt(ps: seq<Page>, p: int)
    requires 0 <= p < |ps|
    ensures p in Heads(ps) <==> ps[p].head
    ensures p in Heads(ps) ==> Heads(ps)[p] == ps[p].property
  {
  }

  /** The pages of an aligned run are all in use by the allocator, and in one zone. */
  lemma {:induction false} RunInLayout(ps: seq<Page>, zones: seq<Zone>, w: Layout, p: int, k: nat)
    requires Described(ps, zones, w) && Aligned(w, p, k)
    ensures p in w && 0 <= p && p + Pow2(k) <= |ps|
    ensures forall q :: p <= q < p + Pow2(k) ==> q in w && w[q] == w[p]
  {
    forall q | p <= q < p + Pow2(k)
      ensures q in w && w[q] == w[p]
    {
      assert InZoneOf(w, p, q);
    }
    assert p + Pow2(k) - 1 in w;
  }

  lemma {:induction false} InLayout(ps: seq<Page>, zones: seq<Zone>, w: Layout, p: int)
    requires Described(ps, zones, w) && p in w
    ensures 0 <= p < |ps| && !ps[p].reserved && 0 <= ps[p].zone_num < |zones| && w[p] == zones[ps[p].zone_num]
  {
  }

  lemma {:induction false} SameZoneNum(ps: seq<Page>, zones: seq<Zone>, w: Layout, p: int, q: int)
    requires Described(ps, zones, w) && p in w && q in w
    ensures 0 <= p < |ps| && 0 <= q < |ps|
    ensures w[p] == w[q] <==> ps[p].zone_num == ps[q].zone_num
  {
  }

  lemma {:induction false} ZoneNumIs(ps: seq<Page>, zones: seq<Zone>, w: Layout, p: int, z: int)
    requires Described(ps, zones, w) && p in w && 0 <= z < |zones| && w[p] == zones[z]
    ensures 0 <= p < |ps| && ps[p].zone_num == z
  {
  }

  lemma {:induction false} AlignedIn(w: Layout, p: int, k: nat)
    requires Aligned(w, p, k)
    ensures p in w
  {
  }

  /** page_is_buddy, on the descriptors. */
  predicate IsBuddy(ps: seq<Page>, page: int, order: nat, zone_num: int) {
    0 <= page < |ps| && ps[page].zone_num == zone_num && !ps[page].reserved && ps[page].head
      && ps[page].property == order
  }

  /** The test finds out whether the buddy is free, even where there is no such page or it is in another zone. */
  lemma {:induction false} BuddyTest(ps: seq<Page>, zones: seq<Zone>, w: Layout, p: int, k: nat)
    requires Described(ps, zones, w) && p in w
    ensures 0 <= p < |ps| && (IsBuddy(ps, BuddyOf(w, p, k), k, ps[p].zone_num) <==> BuddyFree(w, Heads(ps), p, k))
  {
    var q := BuddyOf(w, p, k);
    if 0 <= q < |ps| {
      HeadAt(ps, q);
      if q in w {
        SameZoneNum(ps, zones, w, p, q);
      }
    }
  }

  lemma {:induction false} BuddyIsPage(ps: seq<Page>, zones: seq<Zone>, w: Layout, p: int, k: nat)
    requires Described(ps, zones, w) && Aligned(w, p, k)
    ensures p in w && 0 <= w[p].base <= BuddyOf(w, p, k)
  {
    assert InZoneOf(w, p, w[p].base);
    XorIsBuddy(p - w[p].base, k);
  }

  lemma {:induction false} InZone(w: Layout, p: int, k: nat)
    requires Aligned(w, p, k)
    ensures p in w && w[p].base <= p
  {
  }

  /** The indices that the source computes are those of the buddy, and of the two blocks together. */
  lemma {:induction false} BuddyIndex(w: Layout, p: int, k: nat, page_idx: nat)
    requires Aligned(w, p, k) && page_idx == p - w[p].base
    ensures w[p].base + Xor(page_idx, Pow2(k)) == BuddyOf(w, p, k)
    ensures var q := BuddyOf(w, p, k); q >= w[p].base ==>
              w[p].base + And(page_idx, q - w[p].base) == if p < q then p else q
  {
    XorIsBuddy(page_idx, k);
    AndIsFirst(page_idx, Xor(page_idx, Pow2(k)), k);
  }

  /** Merging with a free buddy. */
  lemma {:induction false} MergeReady(w: Layout, free: set<int>, fl: seq<seq<int>>, nr: seq<int>, b: Blocks, p: int,
                                      k: nat)
    requires CoreOf(w, free, fl, nr, b) && Aligned(w, p, k) && ApartFrom(b, p, k) && k < MAX_ORDER
    requires BuddyFree(w, b, p, k)
    ensures var q := BuddyOf(w, p, k); var p' := if p < q then p else q;
            && IsBlock(b, q, k) && q in w && p' in w && w[p'] == w[p] && Aligned(w, p', k + 1)
            && ApartFrom(b - {q}, p', k + 1)
            && Range(p', Pow2(k + 1)) == Range(p, Pow2(k)) + Range(q, Pow2(k))
  {
    Merge(w, b, p, k);
  }

  lemma {:induction false} JoinSets<T>(free: set<T>, block: set<T>, buddy: set<T>, joined: set<T>)
    requires free !! block && buddy <= free && joined == block + buddy
    ensures (free - buddy) + joined == free + block && free - buddy !! joined
  {
  }

  /** A run that is not free is apart from the free blocks, and none of them starts in it. */
  lemma {:induction false} UsedRun(w: Layout, free: set<int>, fl: seq<seq<int>>, nr: seq<int>, b: Blocks, p: int,
                                   k: nat)
    requires CoreOf(w, free, fl, nr, b) && free !! Range(p, Pow2(k))
    ensures ApartFrom(b, p, k) && forall q :: p <= q < p + Pow2(k) ==> q !in b
  {
    InRange(p, Pow2(k));
    forall x | p <= x < p + Pow2(k)
      ensures !Covered(b, x) && x !in b
    {
      assert x in Range(p, Pow2(k));
      assert x in b ==> HeldBy(b, x, x);
    }
    UsedApart(b, p, k);
  }

  /** A new zone of `n` pages. */
  ghost function WithZone(w: Layout, base: int, n: nat): Layout {
    w + map p | p in Range(base, n) :: Zone(base, base + n)
  }

  lemma {:induction false} FirstPage(w: Layout, base: int, n: nat)
    requires n > 0
    ensures base in WithZone(w, base, n) && WithZone(w, base, n)[base] == Zone(base, base + n)
  {
    InRange(base, n);
  }

  lemma {:induction false} NewZoned(w: Layout, base: int, n: nat)
    requires InZones(w) && Zoned(w) && forall p :: base <= p < base + n ==> p !in w
    ensures InZones(WithZone(w, base, n)) && Zoned(WithZone(w, base, n))
  {
    var w' := WithZone(w, base, n);
    InRange(base, n);
    forall p, q | InZoneOf(w', p, q)
      ensures q in w' && w'[q] == w'[p]
    {
      assert p in w && !(base <= p < base + n) ==> InZoneOf(w, p, q);
    }
  }

  lemma {:induction false} NewZone(ps: seq<Page>, ps': seq<Page>, zones: seq<Zone>, w: Layout, base: int, n: nat)
    requires Described(ps, zones, w) && n > 0 && 0 <= base && base + n <= |ps| == |ps'|
    requires forall p :: base <= p < base + n ==> p !in w && ps'[p] == Page(0, false, false, 0, 0, |zones|)
    requires forall p :: 0 <= p < |ps| && !(base <= p < base + n) ==> ps'[p] == ps[p]
    ensures Described(ps', zones + [Zone(base, base + n)], WithZone(w, base, n))
    ensures Heads(ps') == Heads(ps)
  {
    hide Heads, Zoned, InZones;
    var w', zones' := WithZone(w, base, n), zones + [Zone(base, base + n)];
    NewZoned(w, base, n);
    InRange(base, n);
    forall i | 0 <= i < |zones|
      ensures zones[i] != Zone(base, base + n) && zones[i].base in w' && w'[zones[i].base] == zones[i]
    {
      assert zones[i].base in w;
    }
    SameHeads(ps, ps');
  }

  lemma {:induction false} SameHeads(ps: seq<Page>, ps': seq<Page>)
    requires |ps| == |ps'| && forall p :: 0 <= p < |ps| ==> ps'[p] == ps[p] || (!ps'[p].head && !ps[p].head)
    ensures Heads(ps') == Heads(ps)
  {
  }

  lemma {:induction false} GoodExtends(w: Layout, free: set<int>, fl: seq<seq<int>>, nr: seq<int>, b: Blocks, base: int,
                                       n: nat)
    requires CoreOf(w, free, fl, nr, b) && n > 0
    requires forall p :: base <= p < base + n ==> p !in w
    ensures CoreOf(WithZone(w, base, n), free, fl, nr, b) && free !! Range(base, n)
  {
    var w' := WithZone(w, base, n);
    InRange(base, n);
    forall p | p in b
      ensures p in w && p in w' && w'[p] == w[p] && Aligned(w', p, b[p])
    {
      assert Aligned(w, p, b[p]);
    }
    NewZoned(w, base, n);
    forall p | p in b && b[p] < MAX_ORDER && p in w'
      ensures !BuddyFree(w', b, p, b[p])
    {
      assert Aligned(w', p, b[p]) && !BuddyFree(w, b, p, b[p]);
      var q := BuddyOf(w', p, b[p]);
      assert q in b ==> Aligned(w', q, b[q]);
    }
    forall x | x in free
      ensures x in w && x !in Range(base, n)
    {
      assert Covered(b, x);
      var p :| HeldBy(b, x, p);
      assert Aligned(w, p, b[p]) && InZoneOf(w, p, x);
    }
  }

  /** The next block of a new zone: its buddy is behind it, and not free yet. */
  lemma {:induction false} NextBlock(w: Layout, free: set<int>, fl: seq<seq<int>>, nr: seq<int>, b: Blocks, base: int,
                                     n: nat, a: nat, k: nat, free0: set<int>)
    requires CoreOf(w, free, fl, nr, b) && base in w && w[base] == Zone(base, base + n) && a + Pow2(k) <= n
    requires k <= MAX_ORDER
    requires free == free0 + Range(base, a) && free0 !! Range(base, n) && IsMultiple(a, k)
    requires (k < MAX_ORDER ==> IsMultiple(a, k + 1))
    ensures base + a in w && Aligned(w, base + a, k) && ApartFrom(b, base + a, k)
    ensures k < MAX_ORDER ==> !BuddyFree(w, b, base + a, k)
  {
    assert InZoneOf(w, base, base + a);
    PartOfRun(free0, base, a, Pow2(k), n);
    UsedRun(w, free, fl, nr, b, base + a, k);
    if k < MAX_ORDER {
      BuddyBehind(w, free, fl, nr, b, base, n, a, k, free0);
    }
  }

  lemma {:induction false} BuddyBehind(w: Layout, free: set<int>, fl: seq<seq<int>>, nr: seq<int>, b: Blocks, base: int,
                                       n: nat,
                                       a: nat, k: nat, free0: set<int>)
    requires CoreOf(w, free, fl, nr, b) && base + a in w && w[base + a] == Zone(base, base + n) && IsMultiple(a, k + 1)
    requires free == free0 + Range(base, a) && free0 !! Range(base, n)
    ensures !BuddyFree(w, b, base + a, k)
  {
    var q := base + a + Pow2(k);
    InRange(base, a);
    InRange(base, n);
    assert BuddyOf(w, base + a, k) == q;
    assert q in b ==> HeldBy(b, q, q);
    assert Covered(b, q) ==> q in free;
  }

  // ---------- runs ----------

  ghost predicate HasRun(w: Layout, free: set<int>, k: nat) {
    exists p :: Aligned(w, p, k) && Range(p, Pow2(k)) <= free
  }

  lemma {:induction false} RunIs(w: Layout, free: set<int>, p: int, k: nat)
    requires Aligned(w, p, k) && Range(p, Pow2(k)) <= free
    ensures HasRun(w, free, k) && p in w
  {
  }

  lemma {:induction false} BlockInList(w: Layout, b: Blocks, fl: seq<seq<int>>, p: int)
    requires Good(w, b) && Listed(fl, b) && p in b
    ensures b[p] < |fl| && p in fl[b[p]]
  {
    assert Aligned(w, p, b[p]) && IsBlock(b, p, b[p]);
  }

  /** Without a block of the order or a larger one there is no free run of that size. */
  lemma {:induction false} NoBlockNoRun(w: Layout, b: Blocks, free: set<int>, fl: seq<seq<int>>, k: nat)
    requires Good(w, b) && FreePages(b, free) && Listed(fl, b) && k <= MAX_ORDER
    requires forall j :: k <= j <= MAX_ORDER ==> fl[j] == []
    ensures !HasRun(w, free, k)
  {
    forall p | Aligned(w, p, k)
      ensures !(Range(p, Pow2(k)) <= free)
    {
      if Range(p, Pow2(k)) <= free {
        RunFreeIn(b, free, p, k);
        var q := RunInBlock(w, b, p, k);
        BlockInList(w, b, fl, q);
      }
    }
  }

  lemma {:induction false} RunFreeIn(b: Blocks, free: set<int>, p: int, k: nat)
    requires FreePages(b, free)
    ensures Range(p, Pow2(k)) <= free <==> RunFree(b, p, k)
  {
    InRange(p, Pow2(k));
    if RunFree(b, p, k) {
      forall x | x in Range(p, Pow2(k))
        ensures x in free
      {
        assert Covered(b, x);
      }
    } else {
      var x :| p <= x < p + Pow2(k) && !Covered(b, x);
      assert x in Range(p, Pow2(k)) && x !in free;
    }
  }

  /** The page is the first on the list `k`, and the lists from `order` up to there are empty. */
  ghost predicate IsFirst(free_list: seq<seq<int>>, order: nat, page: int, k: nat) {
    && order <= k < |free_list| && free_list[k] != [] && page == free_list[k][0]
    && forall j :: order <= j < k ==> free_list[j] == []
  }

  /** The block is of the least order that is large enough. */
  ghost predicate FirstFit(free_list: seq<seq<int>>, order: nat, page: int) {
    exists k: nat :: IsFirst(free_list, order, page, k)
  }

  /** getorder: the least order of a block of at least `n` pages. */
  method GetOrder(n: int) returns (order: nat)
    requires 0 < n <= Pow2(MAX_ORDER)
    ensures order <= MAX_ORDER && n <= Pow2(order) && (order > 0 ==> Pow2(order - 1) < n)
  {
    order := 0;
    var order_size := 1;
    while order <= MAX_ORDER
      invariant order <= MAX_ORDER && order_size == Pow2(order)
      invariant order > 0 ==> Pow2(order - 1) < n
    {
      if n <= order_size {
        return;
      }
      if order == MAX_ORDER {
        break;
      }
      order, order_size := order + 1, order_size * 2;
    }
  }

  class Buddy {
    const pages: array<Page>
    var free_list: seq<seq<int>>
    var nr_free: seq<int>
    /** `base` of a zone is its mem_base; the end is not recorded in the source. */
    var zones: seq<Zone>
    /** The zone of each page, and the set of the free pages. */
    ghost var layout: Layout
    ghost var free: set<int>

    ghost predicate Valid()
      reads this, pages
    {
      Described(pages[..], zones, layout) && CoreOf(layout, free, free_list, nr_free, Heads(pages[..]))
    }

    /** buddy_init; at first all pages are reserved. */
    constructor (npage: nat)
      ensures Valid() && free == {} && layout == map[] && zones == [] && pages.Length == npage
      ensures fresh(pages)
    {
      pages := new Page[npage](i => Page(0, true, false, 0, 0, 0));
      free_list, nr_free := [[], [], [], [], [], [], [], [], [], [], []], [0, 0, 0, 0, 0, 0, 0, 0, 0, 0, 0];
      zones, layout, free := [], map[], {};
      new;
      assert Heads(pages[..]) == map[];
    }

    // ---------- lists and counters ----------

    /** A block goes to the front of its list. */
    method LinkBlock(p: int, k: nat, ghost b: Blocks)
      requires CoreOf(layout, free, free_list, nr_free, b) && Aligned(layout, p, k) && ApartFrom(b, p, k)
      requires (k < MAX_ORDER ==> !BuddyFree(layout, b, p, k))
      modifies this`free_list, this`nr_free, this`free
      ensures CoreOf(layout, free, free_list, nr_free, b[p := k])
      ensures free == old(free) + Range(p, Pow2(k)) && old(free) !! Range(p, Pow2(k))
    {
      hide *;
      CoreAdded(layout, free, free_list, nr_free, b, p, k);
      nr_free, free_list, free := nr_free[k := nr_free[k] + 1], free_list[k := [p] + free_list[k]],
        free + Range(p, Pow2(k));
    }

    /** A block leaves its list. */
    method UnlinkBlock(p: int, k: nat, ghost b: Blocks)
      requires CoreOf(layout, free, free_list, nr_free, b) && k <= MAX_ORDER && IsBlock(b, p, k)
      modifies this`free_list, this`nr_free, this`free
      ensures CoreOf(layout, free, free_list, nr_free, b - {p}) && ApartFrom(b - {p}, p, k) && Aligned(layout, p, k)
      ensures Range(p, Pow2(k)) <= old(free) && free == old(free) - Range(p, Pow2(k))
    {
      hide *;
      CoreRemoved(layout, free, free_list, nr_free, b, p, k);
      nr_free, free_list, free := nr_free[k := nr_free[k] - 1], free_list[k := Lists.Del(free_list[k], p)],
        free - Range(p, Pow2(k));
    }

    /** SetPageProperty and the order of a block. */
    method SetHead(p: int, k: nat)
      requires Described(pages[..], zones, layout) && p in layout
      modifies pages
      ensures Described(pages[..], zones, layout)
      ensures Heads(pages[..]) == old(Heads(pages[..]))[p := k]
    {
      ghost var ps := pages[..];
      HeadSet(ps, p, k);
      DescribedSet(ps, zones, layout, p, ps[p].(head := true, property := k));
      pages[p] := pages[p].(head := true, property := k);
      assert pages[..] == ps[p := ps[p].(head := true, property := k)];
    }

    /** ClearPageProperty. */
    method ClearHead(p: int)
      requires Described(pages[..], zones, layout) && p in layout
      modifies pages
      ensures Described(pages[..], zones, layout)
      ensures Heads(pages[..]) == old(Heads(pages[..])) - {p}
    {
      ghost var ps := pages[..];
      HeadCleared(ps, p, ps[p].(head := false));
      DescribedSet(ps, zones, layout, p, ps[p].(head := false));
      pages[p] := pages[p].(head := false);
      assert pages[..] == ps[p := ps[p].(head := false)];
    }

    /** A block of pages becomes a free block: order, flag, counter and list. */
    method PutBlock(p: int, k: nat)
      requires Described(pages[..], zones, layout) && CoreOf(layout, free, free_list, nr_free, Heads(pages[..]))
      requires p in layout && Aligned(layout, p, k) && ApartFrom(Heads(pages[..]), p, k)
      requires k < MAX_ORDER ==> !BuddyFree(layout, Heads(pages[..]), p, k)
      modifies this`free_list, this`nr_free, this`free, pages
      ensures Valid()
      ensures free == old(free) + Range(p, Pow2(k))
    {
      hide Described, CoreOf, Heads, Aligned, ApartFrom, BuddyFree, Range, Pow2;
      ghost var b := Heads(pages[..]);
      SetHead(p, k);
      LinkBlock(p, k, b);
    }

    // ---------- buddy_init_memmap ----------

    /** The first loop of buddy_init_memmap: the descriptors of a new zone. */
    method DescribeZone(base: int, n: int)
      requires Valid() && n > 0 && 0 <= base && base + n <= pages.Length
      requires forall p :: base <= p < base + n ==> p !in layout
      modifies pages, this`zones, this`layout
      ensures Valid()
      ensures layout == WithZone(old(layout), base, n)
      ensures free !! Range(base, n)
    {
      ghost var ps, b := pages[..], Heads(pages[..]);
      var zone_num := |zones|;
      for p := base to base + n
        invariant zones == old(zones) && layout == old(layout)
        invariant forall q :: base <= q < p ==> pages[q] == Page(0, false, false, 0, 0, zone_num)
        invariant forall q :: 0 <= q < pages.Length && !(base <= q < p) ==> pages[q] == ps[q]
      {
        assert pages[p].reserved;
        pages[p] := Page(0, false, false, 0, 0, zone_num);
      }
      NewZone(ps, pages[..], zones, layout, base, n);
      GoodExtends(layout, free, free_list, nr_free, b, base, n);
      zones := zones + [Zone(base, base + n)];
      layout := WithZone(layout, base, n);
    }

    /** A block of a new zone becomes free. */
    method AddFirst(base: int, n: int, ghost a: nat, order: nat, p: int, ghost free0: set<int>)
      requires Valid() && base in layout && layout[base] == Zone(base, base + n) && p == base + a
      requires a + Pow2(order) <= n && order <= MAX_ORDER && IsMultiple(a, order)
      requires (order < MAX_ORDER ==> IsMultiple(a, order + 1))
      requires free == free0 + Range(base, a) && free0 !! Range(base, n)
      modifies this`free_list, this`nr_free, this`free, pages
      ensures Valid()
      ensures free == free0 + Range(base, a + Pow2(order))
    {
      hide Described, CoreOf, Heads, Aligned, ApartFrom, BuddyFree, Range, Pow2, IsMultiple;
      NextBlock(layout, free, free_list, nr_free, Heads(pages[..]), base, n, a, order, free0);
      PartOfRun(free0, base, a, Pow2(order), n);
      PutBlock(p, order);
    }

    /** One size of blocks in buddy_init_memmap; only of the largest size there may be more than one. */
    method FillOrder(base: int, n: int, p0: int, rest0: int, order: nat, order_size: int, ghost a0: nat,
                     ghost free0: set<int>)
      returns (p: int, rest: int, ghost a: nat)
      requires Valid() && base in layout && layout[base] == Zone(base, base + n)
      requires 0 <= rest0 && a0 + rest0 == n && p0 == base + a0 && order_size == Pow2(order) && order <= MAX_ORDER
      requires free == free0 + Range(base, a0) && free0 !! Range(base, n) && IsMultiple(a0, order)
      requires order < MAX_ORDER ==> rest0 < 2 * order_size && IsMultiple(a0, order + 1)
      modifies this`free_list, this`nr_free, this`free, pages
      ensures Valid()
      ensures 0 <= rest < order_size && a + rest == n && p == base + a
      ensures free == free0 + Range(base, a) && IsMultiple(a, order)
    {
      hide *;
      p, rest, a := p0, rest0, a0;
      while rest >= order_size
        invariant Valid()
        invariant 0 <= rest && a + rest == n && p == base + a
        invariant free == free0 + Range(base, a)
        invariant IsMultiple(a, order)
        invariant order < MAX_ORDER && rest >= order_size ==> rest < 2 * order_size && IsMultiple(a, order + 1)
        decreases rest
      {
        NextPower(a, order);
        AddFirst(base, n, a, order, p, free0);
        a := a + Pow2(order);
        p, rest := p + order_size, rest - order_size;
      }
    }

    /** The second loop of buddy_init_memmap: blocks of falling size. */
    method FillZone(base: int, n: int)
      requires Valid() && n > 0 && base in layout && layout[base] == Zone(base, base + n)
      requires free !! Range(base, n)
      modifies this`free_list, this`nr_free, this`free, pages
      ensures Valid()
      ensures free == old(free) + Range(base, n)
    {
      hide *;
      var order: nat := MAX_ORDER;
      var p, rest, order_size := base, n, 1024;
      ghost var a: nat, free0 := 0, free;
      SmallPower(base, 0, free);
      TopPower();
      while rest != 0
        invariant Valid()
        invariant 0 <= rest && a + rest == n && p == base + a
        invariant free == free0 + Range(base, a)
        invariant rest != 0 ==> order_size == Pow2(order) && order <= MAX_ORDER && IsMultiple(a, order)
        invariant rest != 0 && order < MAX_ORDER ==> rest < 2 * order_size && IsMultiple(a, order + 1)
        decreases rest != 0, order
      {
        p, rest, a := FillOrder(base, n, p, rest, order, order_size, a, free0);
        if rest != 0 {
          HalfPower(a, order);
          order, order_size := order - 1, order_size / 2;
        }
      }
    }

    /** buddy_init_memmap: the pages of a new zone become free, in blocks as large as possible. */
    method InitMemmap(base: int, n: int)
      requires Valid() && n > 0 && 0 <= base && base + n <= pages.Length && |zones| < MAX_ZONE_NUM
      requires forall p :: base <= p < base + n ==> p !in layout
      modifies this, pages
      ensures Valid()
      ensures layout == WithZone(old(layout), base, n)
      ensures free == old(free) + Range(base, n)
    {
      hide *;
      DescribeZone(base, n);
      FirstPage(old(layout), base, n);
      FillZone(base, n);
    }

    // ---------- buddy_alloc_pages ----------

    /** One round of the splitting loop: the second half of the block becomes a free block. */
    method SplitOnce(page: int, buddy: int, k: nat, ghost b: Blocks)
      requires Described(pages[..], zones, layout) && page in Heads(pages[..]) && b == Heads(pages[..]) - {page}
      requires CoreOf(layout, free, free_list, nr_free, b) && Aligned(layout, page, k + 1) && ApartFrom(b, page, k + 1)
      requires buddy == page + Pow2(k)
      modifies this`free_list, this`nr_free, this`free, pages
      ensures Described(pages[..], zones, layout) && page in Heads(pages[..])
      ensures Heads(pages[..]) - {page} == b[buddy := k]
      ensures CoreOf(layout, free, free_list, nr_free, b[buddy := k])
      ensures Aligned(layout, page, k) && ApartFrom(b[buddy := k], page, k)
      ensures free == old(free) + Range(buddy, Pow2(k)) && old(free) !! Range(buddy, Pow2(k))
    {
      hide *;
      SplitReady(layout, free, free_list, nr_free, b, page, k);
      SetApart(Heads(pages[..]), page, buddy, k);
      SetHead(buddy, k);
      LinkBlock(buddy, k, b);
    }

    /** The splitting loop of buddy_alloc_pages_sub: second halves are freed down to the order. */
    method SplitDown(page: int, from: nat, order: nat)
      requires Described(pages[..], zones, layout)
      requires CoreOf(layout, free, free_list, nr_free, Heads(pages[..]) - {page}) && page in Heads(pages[..])
      requires order <= from && Aligned(layout, page, from) && ApartFrom(Heads(pages[..]) - {page}, page, from)
      modifies this`free_list, this`nr_free, this`free, pages
      ensures Described(pages[..], zones, layout) && page in Heads(pages[..])
      ensures CoreOf(layout, free, free_list, nr_free, Heads(pages[..]) - {page})
      ensures Aligned(layout, page, order)
      ensures free + Range(page, Pow2(order)) == old(free) + Range(page, Pow2(from)) && free !! Range(page, Pow2(order))
    {
      hide *;
      var cur_order, size := from, Pow2(from);
      ghost var b := Heads(pages[..]) - {page};
      RangeApart(layout, free, free_list, nr_free, b, page, from);
      while cur_order > order
        invariant order <= cur_order && size == Pow2(cur_order)
        invariant page in Heads(pages[..]) && b == Heads(pages[..]) - {page}
        invariant Described(pages[..], zones, layout)
        invariant CoreOf(layout, free, free_list, nr_free, b)
        invariant Aligned(layout, page, cur_order) && ApartFrom(b, page, cur_order)
        invariant free + Range(page, Pow2(cur_order)) == old(free) + Range(page, Pow2(from))
        invariant free !! Range(page, Pow2(cur_order))
      {
        SplitReady(layout, free, free_list, nr_free, b, page, cur_order - 1);
        cur_order, size := cur_order - 1, size / 2;
        RangeHalves(page, size, size);
        MoveHalf(free, Range(page, size + size), Range(page, size), Range(page + size, size),
                 old(free) + Range(page, Pow2(from)));
        SplitOnce(page, page + size, cur_order, b);
        b := b[page + size := cur_order];
      }
    }
  
    /** buddy_alloc_pages_sub: a block of the order, split off the first free one that is large enough; -1 is NULL. */
    method AllocPagesSub(order: nat) returns (page: int)
      requires Valid() && order <= MAX_ORDER
      modifies this`free_list, this`nr_free, this`free, pages
      ensures Valid()
      ensures page == -1 <==> !HasRun(layout, old(free), order)
      ensures page == -1 ==> free == old(free)
      ensures page != -1 ==> Aligned(layout, page, order)
      ensures page != -1 ==> Range(page, Pow2(order)) <= old(free) && free == old(free) - Range(page, Pow2(order))
      ensures page != -1 ==> FirstFit(old(free_list), order, page)
    {
      ghost var b := Heads(pages[..]);
      for cur_order := order to MAX_ORDER + 1
        invariant forall j :: order <= j < cur_order ==> free_list[j] == []
      {
        if free_list[cur_order] != [] {
          page := free_list[cur_order][0];
          assert IsFirst(free_list, order, page, cur_order);
          TakeBlock(page, cur_order, order);
          return;
        }
      }
      NoBlockNoRun(layout, b, free, free_list, order);
      return -1;
    }

    /** The first block of a list is taken and split. */
    method TakeBlock(page: int, from: nat, order: nat)
      requires Valid() && order <= from <= MAX_ORDER && from < |free_list| && page in free_list[from]
      modifies this`free_list, this`nr_free, this`free, pages
      ensures Valid()
      ensures Aligned(layout, page, order) && page >= 0
      ensures Range(page, Pow2(order)) <= old(free) && free == old(free) - Range(page, Pow2(order))
      ensures HasRun(layout, old(free), order)
    {
      hide CoreOf, Described, Aligned, ApartFrom, HasRun, Heads, Pow2, Range;
      ghost var b, free0 := Heads(pages[..]), free;
      InList(layout, free, free_list, nr_free, b, page, from);
      UnlinkBlock(page, from, b);
      SplitDown(page, from, order);
      AlignedIn(layout, page, order);
      ClearHead(page);
      KeepFirst(free0, Range(page, Pow2(from)), Range(page, Pow2(order)), free);
      RunIs(layout, free0, page, order);
    }
  
    // ---------- buddy_free_pages ----------

    /** The first loop of buddy_free_pages_sub: flags and reference counts are cleared. */
    method ResetPages(base: int, k: nat)
      requires Described(pages[..], zones, layout) && Aligned(layout, base, k)
      requires forall p :: base <= p < base + Pow2(k) ==> p !in Heads(pages[..])
      modifies pages
      ensures Described(pages[..], zones, layout)
      ensures Heads(pages[..]) == old(Heads(pages[..]))
      ensures 0 <= base && base + Pow2(k) <= pages.Length && forall p :: base <= p < base + Pow2(k) ==>
          pages[p].ref == 0
    {
      hide *;
      ghost var b := Heads(pages[..]);
      RunInLayout(pages[..], zones, layout, base, k);
      for p := base to base + Pow2(k)
        invariant Described(pages[..], zones, layout)
        invariant Heads(pages[..]) == b
        invariant forall q :: base <= q < p ==> pages[q].ref == 0
      {
        ghost var ps := pages[..];
        assert p in layout;
        HeadAt(ps, p);
        assert !pages[p].reserved && !pages[p].head by {
          InLayout(ps, zones, layout, p);
        }
        var page := pages[p].(ref := 0, reserved := false, head := false, others := 0);
        HeadCleared(ps, p, page);
        DescribedSet(ps, zones, layout, p, page);
        pages[p] := page;
        assert pages[..] == ps[p := page];
      }
    }

    /** page_is_buddy. */
    method PageIsBuddy(page: int, order: nat, zone_num: int) returns (r: bool)
      requires page >= 0
      ensures r <==> IsBuddy(pages[..], page, order, zone_num)
    {
      r := page < pages.Length && pages[page].zone_num == zone_num
           && !pages[page].reserved && pages[page].head && pages[page].property == order;
    }

    /** One round of the merging loop: the free buddy is taken, and joined with the block. */
    method MergeOnce(ghost page: int, buddy: int, order: nat) returns (ghost joined: int)
      requires Described(pages[..], zones, layout) && CoreOf(layout, free, free_list, nr_free, Heads(pages[..]))
      requires Aligned(layout, page, order) && ApartFrom(Heads(pages[..]), page, order) && order < MAX_ORDER
      requires page in layout && buddy == BuddyOf(layout, page, order)
      requires BuddyFree(layout, Heads(pages[..]), page, order)
      requires free !! Range(page, Pow2(order))
      modifies this`free_list, this`nr_free, this`free, pages
      ensures Described(pages[..], zones, layout)
      ensures CoreOf(layout, free, free_list, nr_free, Heads(pages[..]))
      ensures joined in layout && layout[joined] == layout[page] && joined == if page < buddy then page else buddy
      ensures Aligned(layout, joined, order + 1) && ApartFrom(Heads(pages[..]), joined, order + 1)
      ensures free + Range(joined, Pow2(order + 1)) == old(free) + Range(page, Pow2(order))
      ensures free !! Range(joined, Pow2(order + 1))
    {
      hide *;
      ghost var b, free0 := Heads(pages[..]), free;
      MergeReady(layout, free, free_list, nr_free, b, page, order);
      UnlinkBlock(buddy, order, b);
      ClearHead(buddy);
      joined := if page < buddy then page else buddy;
      JoinSets(free0, Range(page, Pow2(order)), Range(buddy, Pow2(order)), Range(joined, Pow2(order + 1)));
    }

    /** The merging loop of buddy_free_pages_sub: free buddies are taken and joined. */
    method MergeUp(base: int, k: nat) returns (page: int, order: nat)
      requires Described(pages[..], zones, layout) && CoreOf(layout, free, free_list, nr_free, Heads(pages[..]))
      requires base in layout && Aligned(layout, base, k) && ApartFrom(Heads(pages[..]), base, k)
      modifies this`free_list, this`nr_free, this`free, pages
      ensures Described(pages[..], zones, layout)
      ensures CoreOf(layout, free, free_list, nr_free, Heads(pages[..]))
      ensures page in layout && Aligned(layout, page, order) && ApartFrom(Heads(pages[..]), page, order)
      ensures order < MAX_ORDER ==> !BuddyFree(layout, Heads(pages[..]), page, order)
      ensures free + Range(page, Pow2(order)) == old(free) + Range(base, Pow2(k)) && free !! Range(page, Pow2(order))
    {
      hide CoreOf, Described, Aligned, ApartFrom, Heads, Pow2, Range, BuddyFree;
      InLayout(pages[..], zones, layout, base);
      var zone_num := pages[base].zone_num;
      var mem_base := zones[zone_num].base;
      InZone(layout, base, k);
      var page_idx: nat := base - mem_base;
      ghost var p := base;
      order := k;
      RangeApart(layout, free, free_list, nr_free, Heads(pages[..]), base, k);
      while order < MAX_ORDER
        invariant Described(pages[..], zones, layout)
        invariant CoreOf(layout, free, free_list, nr_free, Heads(pages[..]))
        invariant Aligned(layout, p, order) && ApartFrom(Heads(pages[..]), p, order)
        invariant p in layout && layout[p] == layout[base] && p == mem_base + page_idx
        invariant free + Range(p, Pow2(order)) == old(free) + Range(base, Pow2(k))
        invariant free !! Range(p, Pow2(order))
      {
        ZoneNumIs(pages[..], zones, layout, p, zone_num);
        BuddyTest(pages[..], zones, layout, p, order);
        BuddyIsPage(pages[..], zones, layout, p, order);
        BuddyIndex(layout, p, order, page_idx);
        var buddy_idx := Xor(page_idx, Pow2(order));
        var buddy := mem_base + buddy_idx;
        var free_buddy := PageIsBuddy(buddy, order, zone_num);
        if !free_buddy {
          break;
        }
        p := MergeOnce(p, buddy, order);
        page_idx := And(page_idx, buddy_idx);
        order := order + 1;
      }
      page := mem_base + page_idx;
    }

    /** buddy_free_pages_sub: a block of pages in use becomes free. */
    method FreePagesSub(base: int, order: nat)
      requires Valid() && Aligned(layout, base, order) && free !! Range(base, Pow2(order))
      modifies this`free_list, this`nr_free, this`free, pages
      ensures Valid()
      ensures free == old(free) + Range(base, Pow2(order))
    {
      hide CoreOf, Described, Aligned, ApartFrom, Heads, Pow2, Range, BuddyFree;
      UsedRun(layout, free, free_list, nr_free, Heads(pages[..]), base, order);
      RunInLayout(pages[..], zones, layout, base, order);
      ResetPages(base, order);
      var page, top := MergeUp(base, order);
      PutBlock(page, top);
    }
  
    /** A part of a run of `n0` pages becomes free; `a` pages are free already. */
    method FreePart(base: int, order: nat, ghost base0: int, ghost a: nat, ghost n0: nat, ghost free0: set<int>)
      requires Valid() && Aligned(layout, base, order) && base == base0 + a && a + Pow2(order) <= n0
      requires free == free0 + Range(base0, a) && free0 !! Range(base0, n0)
      modifies this`free_list, this`nr_free, this`free, pages
      ensures Valid()
      ensures free == free0 + Range(base0, a + Pow2(order))
    {
      hide *;
      PartOfRun(free0, base0, a, Pow2(order), n0);
      FreePagesSub(base, order);
    }

    /** Behind the first `a` pages of a run there is room for a block, if the place is aligned. */
    lemma {:induction false} PartAligned(base: int, a: nat, n: int, order: nat, i: int)
      requires Valid() && base in layout && layout[base].base <= base && base + n <= layout[base].end
      requires a + Pow2(order) <= n < 2048 && IsMultiple(i, order) && i == base + a - layout[base].base
      ensures Aligned(layout, base + a, order) && order <= MAX_ORDER
      ensures 0 <= base + a < pages.Length && 0 <= pages[base + a].zone_num < |zones|
      ensures layout[base] == zones[pages[base + a].zone_num]
    {
      LargePower(order);
      assert InZoneOf(layout, base, base + a);
    }

    /** The first loop of buddy_free_pages: blocks of growing size, up to an alignment that exceeds the rest. */
    method FreeGrowing(base: int, n: int) returns (p: int, rest: int, order: nat, ghost a: nat, ghost i: int)
      requires Valid() && 0 < n < 2048 && base in layout && layout[base].base <= base && base + n <= layout[base].end
      requires free !! Range(base, n)
      modifies this`free_list, this`nr_free, this`free, pages
      ensures Valid()
      ensures 0 <= rest < Pow2(order) && a + rest == n && p == base + a
      ensures IsMultiple(i, order) && i == p - layout[base].base
      ensures free == old(free) + Range(base, a)
    {
      hide *;
      var order_size := 1;
      p, rest, order, a, i := base, n, 0, 0, base - layout[base].base;
      SmallPower(base, i, free);
      while rest >= order_size
        invariant Valid()
        invariant order_size == Pow2(order) >= 1
        invariant 0 <= rest && a + rest == n && p == base + a && i == p - layout[base].base
        invariant IsMultiple(i, order)
        invariant free == old(free) + Range(base, a)
        decreases n - order_size
      {
        PartAligned(base, a, n, order, i);
        var idx := p - zones[pages[p].zone_num].base;
        NextPower(i, order);
        assert idx == i;
        if And(idx, order_size) != 0 {
          FreePart(p, order, base, a, n, old(free));
          p, rest := p + order_size, rest - order_size;
          a, i := a + Pow2(order), i + Pow2(order);
        }
        order, order_size := order + 1, order_size * 2;
      }
    }

    /** The second loop of buddy_free_pages: the rest in blocks of falling size. */
    method FreeFalling(base: int, n: int, p0: int, rest0: int, order0: nat, ghost a0: nat, ghost i0: int,
                       ghost free0: set<int>)
      requires Valid() && 0 < n < 2048 && base in layout && layout[base].base <= base && base + n <= layout[base].end
      requires 0 <= rest0 && a0 + rest0 == n && p0 == base + a0 && IsMultiple(i0, order0)
      requires i0 == p0 - layout[base].base
      requires free0 !! Range(base, n) && free == free0 + Range(base, a0)
      modifies this`free_list, this`nr_free, this`free, pages
      ensures Valid()
      ensures free == free0 + Range(base, n)
    {
      hide *;
      var p, rest, order, order_size := p0, rest0, order0, Pow2(order0);
      ghost var a, i := a0, i0;
      while rest != 0
        invariant Valid()
        invariant order_size == Pow2(order)
        invariant 0 <= rest && a + rest == n && p == base + a && i == p - layout[base].base
        invariant IsMultiple(i, order)
        invariant free == free0 + Range(base, a)
      {
        while rest < order_size
          invariant Valid()
          invariant free == free0 + Range(base, a)
          invariant order_size == Pow2(order)
          invariant IsMultiple(i, order)
        {
          HalfPower(i, order);
          order, order_size := order - 1, order_size / 2;
        }
        PartAligned(base, a, n, order, i);
        NextPower(i, order);
        FreePart(p, order, base, a, n, free0);
        p, rest := p + order_size, rest - order_size;
        a, i := a + Pow2(order), i + Pow2(order);
      }
    }

    /** buddy_free_pages: `n` pages in use become free, in blocks as large as their alignment allows. */
    method FreePages(base: int, n: int)
      requires Valid() && 0 < n < 2048 && base in layout && layout[base].base <= base && base + n <= layout[base].end
      requires free !! Range(base, n)
      modifies this`free_list, this`nr_free, this`free, pages
      ensures Valid()
      ensures free == old(free) + Range(base, n)
    {
      if n == 1 {
        hide *;
        SmallPower(base, base - layout[base].base, free);
        PartAligned(base, 0, 1, 0, base - layout[base].base);
        FreePagesSub(base, 0);
      } else {
        hide *;
        var p, rest, order;
        ghost var a, i;
        p, rest, order, a, i := FreeGrowing(base, n);
        FreeFalling(base, n, p, rest, order, a, i, old(free));
      }
    }

    // ---------- buddy_alloc_pages, buddy_nr_free_pages ----------

    /**
     buddy_alloc_pages: NULL (-1) just when there is no aligned run of free pages of the order that `n`
     needs; else `n` free pages, and no others, are taken.
     */
    method AllocPages(n: int) returns (page: int, ghost order: nat)
      requires Valid() && 0 < n <= Pow2(MAX_ORDER)
      modifies this`free_list, this`nr_free, this`free, pages
      ensures Valid()
      ensures order <= MAX_ORDER && n <= Pow2(order) && (order > 0 ==> Pow2(order - 1) < n)
      ensures page == -1 <==> !HasRun(layout, old(free), order)
      ensures page == -1 ==> free == old(free)
      ensures page != -1 ==> Aligned(layout, page, order)
      ensures page != -1 ==> Range(page, n) <= old(free) && free == old(free) - Range(page, n)
      ensures page != -1 ==> FirstFit(old(free_list), order, page)
    {
      hide *;
      var k := GetOrder(n);
      order := k;
      page := AllocPagesSub(k);
      if page != -1 && n != Pow2(k) {
        TailOf(page, n, k);
        KeepHead(old(free), Range(page, Pow2(k)), Range(page, n), Range(page + n, Pow2(k) - n));
        FreePages(page + n, Pow2(k) - n);
      }
    }

    /** What is allocated and freed again leaves the same free blocks, and the same numbers of them. */
    method AllocAndFree(n: int) returns (page: int)
      requires Valid() && 0 < n <= Pow2(MAX_ORDER)
      modifies this`free_list, this`nr_free, this`free, pages
      ensures Valid()
      ensures free == old(free) && Heads(pages[..]) == old(Heads(pages[..])) && nr_free == old(nr_free)
    {
      hide CoreOf, Described, Aligned, Heads, Range, HasRun;
      ghost var b, free0, fl, nr := Heads(pages[..]), free, free_list, nr_free;
      ghost var order;
      page, order := AllocPages(n);
      if page != -1 {
        RunEnds(page, n, order);
        FreePages(page, n);
        GaveBack(free0, Range(page, n), free);
      }
      assert free == free0;
      SameFreeSameBlocks(layout, free, fl, nr, b, free_list, nr_free, Heads(pages[..]));
    }

    lemma {:induction false} RunEnds(page: int, n: int, k: nat)
      requires Valid() && Aligned(layout, page, k) && 0 < n <= Pow2(k)
      ensures page in layout && layout[page].base <= page && page + n <= layout[page].end && k <= MAX_ORDER && n < 2048
    {
      PowerAtMost(k);
    }

    /** The pages of a block behind the first `n`. */
    lemma {:induction false} TailOf(page: int, n: int, k: nat)
      requires Valid() && Aligned(layout, page, k) && 0 < n < Pow2(k)
      ensures Pow2(k) - n < 2048 && page + n in layout && layout[page + n].base <= page + n
      ensures page + Pow2(k) <= layout[page + n].end
      ensures Range(page, Pow2(k)) == Range(page, n) + Range(page + n, Pow2(k) - n)
      ensures Range(page, n) !! Range(page + n, Pow2(k) - n)
    {
      RangeHalves(page, n, Pow2(k) - n);
      assert InZoneOf(layout, page, page + n);
      PowerAtMost(k);
    }

    /** buddy_nr_free_pages counts the free pages. */
    method NrFreePages() returns (ret: int)
      requires Valid()
      ensures ret == |free|
    {
      ret := 0;
      var order := 0;
      while order <= MAX_ORDER
        invariant order <= MAX_ORDER + 1 && ret == Total(nr_free, order)
      {
        ret := ret + nr_free[order] * Pow2(order);
        order := order + 1;
      }
    }
  }

  lemma {:induction false} GaveBack<T>(free0: set<T>, taken: set<T>, free: set<T>)
    requires taken <= free0 && free == (free0 - taken) + taken
    ensures free == free0
  {
  }

  lemma {:induction false} LargePower(k: nat)
    ensures k > MAX_ORDER ==> Pow2(k) >= 2048
  {
    if k > MAX_ORDER + 1 {
      LargePower(k - 1);
    }
  }

  lemma {:induction false} PowerAtMost(k: nat)
    requires k <= MAX_ORDER
    ensures Pow2(k) <= 1024
  {
    if k < MAX_ORDER {
      Growing(k, MAX_ORDER);
    }
  }

  lemma {:induction false} TopPower()
    ensures Pow2(MAX_ORDER) == 1024 && IsMultiple(0, MAX_ORDER)
  {
  }

  ghost predicate IsMultiple(i: int, k: nat) {
    i % Pow2(k) == 0
  }

  lemma {:induction false} SmallPower(p: int, i: int, free: set<int>)
    ensures Pow2(0) == 1 && IsMultiple(i, 0) && free == free + Range(p, 0)
  {
  }

  /** The alignment after a block has been passed; without the bit it is the next one already. */
  lemma {:induction false} NextPower(i: int, k: nat)
    requires IsMultiple(i, k) && i >= 0
    ensures Pow2(k + 1) == 2 * Pow2(k) && IsMultiple(i + Pow2(k), k)
    ensures if And(i, Pow2(k)) != 0 then IsMultiple(i + Pow2(k), k + 1) else IsMultiple(i, k + 1)
  {
    var m := Pow2(k);
    AndIsBit(i, k);
    AddMultiple(i, m);
    HalfOrWhole(i, m);
    if i % (2 * m) == m {
      QuotientUnique(i + m, 2 * m, i / (2 * m) + 1, 0);
    }
  }

  lemma {:induction false} HalfPower(i: int, k: nat)
    requires IsMultiple(i, k) && Pow2(k) > 1
    ensures k > 0 && Pow2(k) == 2 * Pow2(k - 1) && IsMultiple(i, k - 1)
  {
    if k > 0 {
      Multiple(i, Pow2(k - 1));
    }
  }

  lemma {:induction false} RangeApart(w: Layout, free: set<int>, fl: seq<seq<int>>, nr: seq<int>, b: Blocks, p: int,
                                      k: nat)
    requires CoreOf(w, free, fl, nr, b) && ApartFrom(b, p, k)
    ensures free !! Range(p, Pow2(k))
  {
    InRange(p, Pow2(k));
    forall x | x in Range(p, Pow2(k))
      ensures x !in free
    {
      ApartUncovered(b, p, k, x);
    }
  }

  /**
   The free pages determine the free blocks: whatever was allocated and freed in between, the blocks are
   the same again when the same pages are free.
   */
  lemma {:induction false} SameFreeSameBlocks(w: Layout, free: set<int>, fl: seq<seq<int>>, nr: seq<int>, b: Blocks,
                                             fl': seq<seq<int>>, nr': seq<int>, b': Blocks)
    requires CoreOf(w, free, fl, nr, b) && CoreOf(w, free, fl', nr', b')
    ensures b == b' && nr == nr'
    ensures forall k, p :: 0 <= k <= MAX_ORDER ==> (p in fl[k] <==> p in fl'[k])
  {
    forall x
      ensures Covered(b, x) <==> Covered(b', x)
    {
      assert x in free <==> Covered(b, x);
    }
    SamePagesSameBlocks(w, b, b');
    forall k, p | 0 <= k <= MAX_ORDER
      ensures p in fl[k] <==> p in fl'[k]
    {
      assert IsBlock(b, p, k) <==> IsBlock(b', p, k);
    }
    forall k | 0 <= k <= MAX_ORDER
      ensures nr[k] == nr'[k]
    {
      SameLength(fl[k], fl'[k]);
    }
  }

  lemma {:induction false} SameLength(s: seq<int>, t: seq<int>)
    requires Lists.NoDup(s) && Lists.NoDup(t) && forall x :: x in s <==> x in t
    ensures |s| == |t|
  {
    Members(s);
    Members(t);
    assert (set x | x in s) == (set x | x in t);
  }

  lemma {:induction false} Members(s: seq<int>)
    requires Lists.NoDup(s)
    ensures |set x | x in s| == |s|
  {
    if s != [] {
      Members(s[1..]);
      assert (set x | x in s) == {s[0]} + (set x | x in s[1..]);
    }
  }
}
