/**
 kmalloc and kfree (kern/mm/slab.c): caches of objects of one size each, whose slabs are runs of pages. What
 alloc_pages gives is a parameter.
 */
module Kmalloc {
  import opened Defs
  import opened Lists
  import opened SlabSizes
  import opened SlabSteps
  import Blocks

  /** The numbers behind a new control structure. */
  method InitBufctl(num: int) returns (bufctl: seq<int>)
    requires num >= 1
    ensures |bufctl| == num && Chain(bufctl, 0, AllFree(num))
  {
    bufctl := seq(num, i => 0);
    for i := 0 to num
      invariant |bufctl| == num && forall j :: 0 <= j < i ==> bufctl[j] == j + 1
    {
      bufctl := bufctl[i := i + 1];
    }
    bufctl := bufctl[num - 1 := BUFCTL_END];
  }

  /** SET_PAGE_CACHE, SET_PAGE_SLAB and SetPageSlab for all pages of a slab. */
  method MarkPages(pages: map<int, Owner>, first: int, order: nat, o: Owner) returns (pages': map<int, Owner>)
    ensures Marked(pages, pages', first, order, o)
  {
    hide Blocks.Pow2;
    pages' := pages;
    var page, order_size := first, Blocks.Pow2(order);
    while true
      invariant 1 <= order_size && page + order_size == first + Blocks.Pow2(order) && page >= first
      invariant forall p :: p in pages' <==> p in pages || first <= p < page
      invariant forall p :: p in pages' ==> pages'[p] == if first <= p < page then o else pages[p]
      decreases order_size
    {
      pages' := pages'[page := o];
      page, order_size := page + 1, order_size - 1;
      if order_size == 0 {
        break;
      }
    }
  }

  /** ClearPageSlab for all of them. */
  method ClearPages(pages: map<int, Owner>, first: int, order: nat) returns (pages': map<int, Owner>)
    ensures forall p :: p in pages' <==> p in pages && !InRun(first, order, p)
    ensures forall p :: p in pages' ==> pages'[p] == pages[p]
  {
    hide Blocks.Pow2;
    pages' := pages;
    var page, order_size := first, Blocks.Pow2(order);
    while true
      invariant 1 <= order_size && page + order_size == first + Blocks.Pow2(order) && page >= first
      invariant forall p :: p in pages' <==> p in pages && !(first <= p < page)
      invariant forall p :: p in pages' ==> pages'[p] == pages[p]
      decreases order_size
    {
      pages' := pages' - {page};
      page, order_size := page + 1, order_size - 1;
      if order_size == 0 {
        break;
      }
    }
  }

  /** A page of what alloc_pages gives for a slab of the cache `c`, or for one of the cache of its control structure. */
  ghost predicate GrantedPage(caches: seq<Cache>, c: nat, r1: Option<int>, r2: Option<int>, p: int)
    requires c < |caches|
  {
    || (r1.Some? && InRun(r1.value, caches[c].page_order, p))
    || (caches[c].off_slab && caches[c].slab_cachep < |caches| && r2.Some?
        && InRun(r2.value, caches[caches[c].slab_cachep].page_order, p))
  }

  /** They are pages that no slab has, and apart from each other. */
  ghost predicate Granted(caches: seq<Cache>, pages: map<int, Owner>, c: nat, r1: Option<int>, r2: Option<int>)
    requires c < |caches|
  {
    && (forall p :: GrantedPage(caches, c, r1, r2, p) ==> p !in pages)
    && (forall p :: GrantedPage(caches, c, r1, None, p) ==> !GrantedPage(caches, c, None, r2, p))
  }

  /** More pages are needed than there are. */
  ghost predicate Refused(caches: seq<Cache>, notfull: seq<seq<int>>, c: nat, r1: Option<int>, r2: Option<int>)
    requires c < |caches| <= |notfull|
  {
    notfull[c] == [] &&
    (r1 == None
     || (caches[c].off_slab && caches[c].slab_cachep < |notfull| && notfull[caches[c].slab_cachep] == [] && r2 == None))
  }

  /** The control structure's pages come first; then the run of the slab is still new. */
  lemma {:induction false} GrantInner(caches: seq<Cache>, pages: map<int, Owner>, c: nat, cc: nat, r1: int,
                                      r2: Option<int>)
    requires CachesOk(caches) && c < |caches| && Granted(caches, pages, c, Some(r1), r2)
    requires caches[c].off_slab && cc == caches[c].slab_cachep
    ensures cc < |caches| && !caches[cc].off_slab && Granted(caches, pages, cc, r2, None)
  {
    ControlCache(caches, c);
    assert forall p :: GrantedPage(caches, cc, r2, None, p) ==> GrantedPage(caches, c, None, r2, p);
    assert forall p :: GrantedPage(caches, c, None, r2, p) ==> GrantedPage(caches, c, Some(r1), r2, p);
  }

  lemma {:induction false} RunStillNew(caches: seq<Cache>, pages: map<int, Owner>, pages': map<int, Owner>, c: nat,
                                       r1: int, r2: Option<int>)
    requires c < |caches| && Granted(caches, pages, c, Some(r1), r2)
    requires forall p :: p in pages' ==> p in pages || GrantedPage(caches, c, None, r2, p)
    ensures NewRun(pages', r1, caches[c].page_order)
  {
    assert forall p :: InRun(r1, caches[c].page_order, p) ==>
                         GrantedPage(caches, c, Some(r1), None, p) && GrantedPage(caches, c, Some(r1), r2, p);
  }

  lemma {:induction false} GrantParts(caches: seq<Cache>, c: nat, cc: nat, r1: Option<int>, r2: Option<int>, p: int)
    requires c < |caches| && cc < |caches|
    ensures caches[c].off_slab && cc == caches[c].slab_cachep && !caches[cc].off_slab ==>
              (GrantedPage(caches, c, None, r2, p) <==> GrantedPage(caches, cc, r2, None, p))
    ensures GrantedPage(caches, c, None, r2, p) ==> GrantedPage(caches, c, r1, r2, p)
    ensures r1.Some? && InRun(r1.value, caches[c].page_order, p) ==> GrantedPage(caches, c, r1, r2, p)
  {
  }

  lemma {:induction false} InnerRefused(caches: seq<Cache>, notfull: seq<seq<int>>, c: nat, r1: int, r2: Option<int>)
    requires CachesOk(caches) && c < |caches| <= |notfull| && notfull[c] == []
    ensures caches[c].off_slab ==> caches[c].slab_cachep < |caches|
    ensures Refused(caches, notfull, c, Some(r1), r2) <==>
              caches[c].off_slab && Refused(caches, notfull, caches[c].slab_cachep, r2, None)
  {
    ControlCache(caches, c);
  }

  lemma {:induction false} NewSlabOk(c: Cache, sp: int, page: int, bufctl: seq<int>)
    requires c.num >= 1 && |bufctl| == c.num && Chain(bufctl, 0, AllFree(c.num))
    requires (!c.off_slab ==> sp == page * PGSIZE)
    ensures var s := Slab(page * PGSIZE + c.offset, 0, c.offset, 0, bufctl);
            SlabOk(c, sp, s, AllFree(c.num)) && First(s) == page
  {
  }

  lemma {:induction false} CacheSound(caches: seq<Cache>, c: nat)
    requires CachesOk(caches) && c < |caches|
    ensures Sound(caches[c]) && caches[c].num >= 1
  {
    assert CacheOk(caches[c], c);
  }

  /** Control structures are in slabs that have their own ones inside. */
  lemma {:induction false} ControlCache(caches: seq<Cache>, c: nat)
    requires CachesOk(caches) && c < |caches|
    ensures caches[c].off_slab ==> caches[c].slab_cachep < |caches| && !caches[caches[c].slab_cachep].off_slab
  {
    assert CacheOk(caches[c], c);
    if caches[c].off_slab {
      assert CacheOk(caches[caches[c].slab_cachep], caches[c].slab_cachep);
    }
  }

  lemma {:induction false} BusyWeaker(caches: seq<Cache>, info: map<int, Info>, except: set<int>)
    requires BusyBut(caches, info, {})
    ensures BusyBut(caches, info, except)
  {
  }

  /** getorder chooses the cache with the smallest objects that are large enough. */
  ghost predicate Serves(c: nat, size: int) {
    c < SLAB_CACHE_NUM && size <= StandardSize(c) && (c == 0 || size > StandardSize(c - 1))
  }

  lemma {:induction false} OrderServes(size: int, order: Option<nat>)
    requires 0 < size <= StandardSize(SLAB_CACHE_NUM - 1)
    requires order == None ==> size > Blocks.Pow2(MAX_SIZE_ORDER)
    requires order.Some? ==> MIN_SIZE_ORDER <= order.value <= MAX_SIZE_ORDER && size <= Blocks.Pow2(order.value)
    requires order.Some? ==> order.value == MIN_SIZE_ORDER || size > Blocks.Pow2(order.value - 1)
    ensures order.Some? && order.value >= MIN_SIZE_ORDER && Serves(order.value - MIN_SIZE_ORDER, size)
    ensures forall c :: Serves(c, size) ==> c == order.value - MIN_SIZE_ORDER
  {
    var k: nat := order.value - MIN_SIZE_ORDER;
    forall c: nat | Serves(c, size)
      ensures c == k
    {
      if c < k {
        HigherPow(MIN_SIZE_ORDER + c, MIN_SIZE_ORDER + k - 1);
      } else if c > k {
        HigherPow(MIN_SIZE_ORDER + k, MIN_SIZE_ORDER + c - 1);
      }
    }
  }

  lemma {:induction false} CacheSize(caches: seq<Cache>, c: nat)
    requires CachesOk(caches) && c < |caches|
    ensures caches[c].objsize == StandardSize(c)
  {
    assert CacheOk(caches[c], c);
  }

  lemma {:induction false} CacheCount(caches: seq<Cache>)
    requires CachesOk(caches)
    ensures |caches| == SLAB_CACHE_NUM
  {
  }

  lemma {:induction false} AllLive(caches: seq<Cache>, info: map<int, Info>, used: map<int, Obj>, live: map<int, int>,
                                   held: set<int>)
    requires Owners(caches, info, used, live, held)
    ensures forall a :: a in live ==> a in used
  {
  }

  /** An object that is held becomes a caller's, and the other way around. */
  lemma {:induction false} NowLive(caches: seq<Cache>, info: map<int, Info>, used: map<int, Obj>, live: map<int, int>,
                                   a: int, c: nat, size: int)
    requires Owners(caches, info, used, live, {a}) && InCache(info, used, a, c)
    requires c < |caches| && size <= caches[c].objsize
    ensures Owners(caches, info, used, live[a := size], {})
  {
  }

  lemma {:induction false} NotLive(caches: seq<Cache>, info: map<int, Info>, used: map<int, Obj>, live: map<int, int>,
                                   a: int)
    requires Owners(caches, info, used, live, {}) && a in live
    ensures Owners(caches, info, used, live - {a}, {a})
  {
  }

  class Allocator {
    const caches: seq<Cache>
    var slabs_full: seq<seq<int>>
    var slabs_notfull: seq<seq<int>>
    var slabs: map<int, Slab>
    var pages: map<int, Owner>
    ghost var info: map<int, Info>
    ghost var used: map<int, Obj>
    ghost var live: map<int, int>

    ghost predicate Inv(held: set<int>, except: set<int>)
      reads this
    {
      Core(caches, slabs, info, pages, slabs_full, slabs_notfull, used, live, held) && BusyBut(caches, info, except)
    }

    ghost predicate Valid()
      reads this
    {
      Inv({}, {})
    }

    /** slab_init. */
    constructor ()
      ensures Valid() && live == map[] && pages == map[]
    {
      var cs := SlabInit();
      caches, slabs_full, slabs_notfull := cs, seq(SLAB_CACHE_NUM, i => []), seq(SLAB_CACHE_NUM, i => []);
      slabs, pages, info, used, live := map[], map[], map[], map[], map[];
    }

    /** kmem_cache_alloc_one. */
    method AllocOne(c: nat, sp: int, ghost held: set<int>) returns (objp: int)
      requires Inv(held, {sp}) && c < |caches| && c < |slabs_notfull| && sp in slabs_notfull[c]
      modifies this
      ensures Inv(held + {objp}, {})
      ensures objp !in old(used) && InCache(info, used, objp, c) && live == old(live) && pages == old(pages)
      ensures forall a :: a in old(used) ==> a in used
    {
      hide CachesOk, SlabsOk, PagesOk, UsedOk, Owners, BusyBut, SlabOk, ListsOk;
      TakeStep(caches, slabs, info, pages, slabs_full, slabs_notfull, used, live, held, c, sp);
      ListsSize(info, slabs_full, slabs_notfull, |caches|);
      var slabp := slabs[sp];
      objp := slabp.s_mem + slabp.free * caches[c].objsize;
      slabs := slabs[sp := TakeFirst(slabp)];
      used := used[objp := Obj(sp, slabp.free)];
      info := info[sp := Info(c, info[sp].chain[1..])];
      if slabs[sp].free == BUFCTL_END {
        slabs_notfull := slabs_notfull[c := Del(slabs_notfull[c], sp)];
        slabs_full := slabs_full[c := [sp] + slabs_full[c]];
      }
    }

    /** kmem_cache_alloc, with the pages that there are for it. */
    method KmemCacheAlloc(c: nat, r1: Option<int>, r2: Option<int>, ghost held: set<int>) returns (objp: Option<int>)
      requires Inv(held, {}) && c < |caches| <= |slabs_notfull| && Granted(caches, pages, c, r1, r2)
      modifies this
      ensures objp == None <==> old(Refused(caches, slabs_notfull, c, r1, r2))
      ensures objp == None ==> Inv(held, {}) && pages == old(pages) && used == old(used)
      ensures objp.Some? ==>
        && Inv(held + {objp.value}, {}) && objp.value !in old(used) && InCache(info, used, objp.value, c)
      ensures forall a :: a in old(used) ==> a in used
      ensures live == old(live)
      ensures old(slabs_notfull)[c] != [] ==> pages == old(pages)
      ensures forall p :: p in pages ==> p in old(pages) || GrantedPage(caches, c, r1, r2, p)
      decreases caches[c].off_slab, 2
    {
      hide CachesOk, SlabsOk, PagesOk, UsedOk, Owners, BusyBut, SlabOk, ListsOk, Granted, GrantedPage, InCache;
      if slabs_notfull[c] == [] {
        var ok := KmemCacheGrow(c, r1, r2, held);
        if !ok {
          return None;
        }
      }
      var sp := slabs_notfull[c][0];
      if old(slabs_notfull)[c] != [] {
        BusyWeaker(caches, info, {sp});
      }
      var a := AllocOne(c, sp, held);
      return Some(a);
    }

    /** kmem_cache_slabmgmt: the address of the control structure for a slab at `page`. */
    method KmemCacheSlabmgmt(c: nat, page: int, r2: Option<int>, ghost held: set<int>) returns (slabp: Option<int>)
      requires Inv(held, {}) && c < |caches| <= |slabs_notfull| && Granted(caches, pages, c, Some(page), r2)
      modifies this
      ensures slabp == None <==>
          caches[c].off_slab && old(Refused(caches, slabs_notfull, caches[c].slab_cachep, r2, None))
      ensures slabp == None ==> Inv(held, {}) && pages == old(pages) && used == old(used)
      ensures slabp.Some? && caches[c].off_slab ==>
        Inv(held + {slabp.value}, {}) && slabp.value !in held && InCache(info, used, slabp.value, caches[c].slab_cachep)
      ensures slabp.Some? && !caches[c].off_slab ==> Inv(held, {}) && slabp.value == page * PGSIZE
      ensures NewRun(pages, page, caches[c].page_order)
      ensures forall a :: a in old(used) ==> a in used
      ensures live == old(live)
      ensures forall p :: p in pages ==> p in old(pages) || GrantedPage(caches, c, Some(page), r2, p)
      decreases caches[c].off_slab, 0
    {
      hide CachesOk, SlabsOk, PagesOk, UsedOk, Owners, BusyBut, SlabOk, ListsOk, Granted, GrantedPage, InCache, NewRun;
      if caches[c].off_slab {
        ghost var cc := caches[c].slab_cachep;
        GrantInner(caches, pages, c, cc, page, r2);
        HeldUsed(caches, info, used, live, held);
        slabp := KmemCacheAlloc(caches[c].slab_cachep, r2, None, held);
        forall p
          ensures GrantedPage(caches, cc, r2, None, p) ==>
                    GrantedPage(caches, c, None, r2, p) && GrantedPage(caches, c, Some(page), r2, p)
        {
          GrantParts(caches, c, cc, Some(page), r2, p);
        }
      } else {
        slabp := Some(page * PGSIZE);
      }
      RunStillNew(caches, old(pages), pages, c, page, r2);
    }

    /** kmem_cache_grow: a new slab at the head of slabs_notfull. */
    method KmemCacheGrow(c: nat, r1: Option<int>, r2: Option<int>, ghost held: set<int>) returns (ok: bool)
      requires Inv(held, {}) && c < |caches| <= |slabs_notfull| && Granted(caches, pages, c, r1, r2)
      requires slabs_notfull[c] == []
      modifies this
      ensures ok <==> !old(Refused(caches, slabs_notfull, c, r1, r2))
      ensures !ok ==> Inv(held, {}) && pages == old(pages) && used == old(used)
      ensures ok ==> |slabs_notfull| == |caches| && slabs_notfull[c] != [] && Inv(held, {slabs_notfull[c][0]})
      ensures forall a :: a in old(used) ==> a in used
      ensures live == old(live)
      ensures forall p :: p in pages ==> p in old(pages) || GrantedPage(caches, c, r1, r2, p)
      decreases caches[c].off_slab, 1
    {
      hide CachesOk, SlabsOk, PagesOk, UsedOk, Owners, BusyBut, SlabOk, ListsOk, Granted, GrantedPage, InCache, NewRun;
      hide First, AllFree, Chain;
      if r1 == None {
        return false;
      }
      var page := r1.value;
      var control := KmemCacheSlabmgmt(c, page, r2, held);
      InnerRefused(caches, old(slabs_notfull), c, page, r2);
      if control == None {
        return false;
      }
      var slabp := control.value;
      ghost var held' := if caches[c].off_slab then held + {slabp} else held;
      CacheSound(caches, c);
      var bufctl := InitBufctl(caches[c].num);
      NewSlabOk(caches[c], slabp, page, bufctl);
      var s := Slab(page * PGSIZE + caches[c].offset, 0, caches[c].offset, 0, bufctl);
      var pages' := MarkPages(pages, page, caches[c].page_order, Owner(c, slabp));
      AddStep(caches, slabs, info, pages, slabs_full, slabs_notfull, used, live, held', c, slabp, s, pages');
      assert held' - {slabp} == held - {slabp};
      slabs := slabs[slabp := s];
      info := info[slabp := Info(c, AllFree(caches[c].num))];
      slabs_notfull := slabs_notfull[c := [slabp] + slabs_notfull[c]];
      forall p | InRun(page, caches[c].page_order, p)
        ensures GrantedPage(caches, c, r1, r2, p)
      {
        GrantParts(caches, c, c, r1, r2, p);
      }
      pages := pages';
      return true;
    }

    /** kmem_cache_free, for an object of the cache `c`. */
    method KmemCacheFree(c: nat, objp: int, ghost held: set<int>)
      requires Inv(held, {}) && objp in held && InCache(info, used, objp, c)
      modifies this
      ensures Inv(held - {objp}, {}) && live == old(live)
      ensures forall p :: p in pages ==> p in old(pages)
      decreases caches[c].off_slab, 2
    {
      hide CachesOk, SlabsOk, PagesOk, UsedOk, Owners, BusyBut, SlabOk, ListsOk;
      FoundAt(caches, slabs, info, pages, used, objp);
      FreeOne(c, pages[PageOf(objp)].slab, objp, held);
    }

    /** kmem_cache_free_one. */
    method FreeOne(c: nat, sp: int, objp: int, ghost held: set<int>)
      requires Inv(held, {}) && objp in held && InCache(info, used, objp, c) && c < |caches| && sp == used[objp].slab
      requires HasSlab(caches, slabs, info, sp)
      modifies this
      ensures Inv(held - {objp}, {}) && live == old(live)
      ensures forall p :: p in pages ==> p in old(pages)
      decreases caches[c].off_slab, 1
    {
      hide CachesOk, SlabsOk, PagesOk, UsedOk, Owners, BusyBut, SlabOk, ListsOk;
      FoundAt(caches, slabs, info, pages, used, objp);
      ListsSize(info, slabs_full, slabs_notfull, |caches|);
      var slabp := slabs[sp];
      var objnr := (objp - slabp.s_mem) / caches[c].objsize;
      slabp := PutFirst(slabp, objnr);
      if slabp.inuse == 0 {
        KmemSlabDestroy(c, sp, objp, held);
        return;
      }
      KeepStep(caches, slabs, info, pages, slabs_full, slabs_notfull, used, live, held, objp);
      slabs := slabs[sp := slabp];
      info := info[sp := Info(c, [objnr] + info[sp].chain)];
      used := used - {objp};
      if slabp.inuse == caches[c].num - 1 {
        slabs_full := slabs_full[c := Del(slabs_full[c], sp)];
        slabs_notfull := slabs_notfull[c := [sp] + slabs_notfull[c]];
      }
    }

    /** The slab of the last object leaves its list, and kmem_slab_destroy gives its pages back. */
    method KmemSlabDestroy(c: nat, sp: int, objp: int, ghost held: set<int>)
      requires Inv(held, {}) && objp in held && InCache(info, used, objp, c) && c < |caches| && sp == used[objp].slab
      requires HasSlab(caches, slabs, info, sp) && slabs[sp].inuse == 1
      modifies this
      ensures Inv(held - {objp}, {}) && live == old(live)
      ensures forall p :: p in pages ==> p in old(pages)
      decreases caches[c].off_slab, 0
    {
      hide CachesOk, SlabsOk, PagesOk, UsedOk, Owners, BusyBut, SlabOk, ListsOk, First, InRun;
      var pages' := ClearPages(pages, First(slabs[sp]), caches[c].page_order);
      DropStep(caches, slabs, info, pages, slabs_full, slabs_notfull, used, live, held, objp, pages');
      ControlCache(caches, c);
      if sp in slabs_full[c] {
        slabs_full := slabs_full[c := Del(slabs_full[c], sp)];
      } else {
        slabs_notfull := slabs_notfull[c := Del(slabs_notfull[c], sp)];
      }
      slabs, pages := slabs - {sp}, pages';
      info, used := info - {sp}, used - {objp};
      if caches[c].off_slab {
        KmemCacheFree(caches[c].slab_cachep, sp, held - {objp} + {sp});
        assert held - {objp} + {sp} - {sp} == held - {objp};
      }
    }

    /** kmalloc: an address that nobody has, for `size` bytes. */
    method Kmalloc(size: int, r1: Option<int>, r2: Option<int>) returns (res: Option<int>)
      requires Valid() && 0 < size <= StandardSize(SLAB_CACHE_NUM - 1)
      requires forall c :: Serves(c, size) ==> Granted(caches, pages, c, r1, r2)
      modifies this
      ensures Valid()
      ensures live == if res.Some? then old(live)[res.value := size] else old(live)
      ensures res.Some? ==> res.value !in old(live)
      ensures res == None ==> pages == old(pages)
      ensures forall c: nat :: Serves(c, size) && c < |old(slabs_notfull)| && old(slabs_notfull)[c] != [] ==>
                pages == old(pages)
      ensures forall c :: Serves(c, size) ==> (res == None <==> old(Refused(caches, slabs_notfull, c, r1, r2)))
    {
      hide CachesOk, SlabsOk, PagesOk, UsedOk, Owners, BusyBut, SlabOk, ListsOk, Granted, Refused, InCache;
      CacheCount(caches);
      ListsSize(info, slabs_full, slabs_notfull, |caches|);
      var order := GetOrder(size);
      OrderServes(size, order);
      var c := order.value - MIN_SIZE_ORDER;
      AllLive(caches, info, used, live, {});
      res := KmemCacheAlloc(c, r1, r2, {});
      if res.Some? {
        assert {} + {res.value} == {res.value};
        CacheSize(caches, c);
        NowLive(caches, info, used, live, res.value, c, size);
        live := live[res.value := size];
      }
    }

    /** kfree: the object is given back, and with the last one of a slab its pages. */
    method Kfree(objp: int)
      requires Valid() && objp in live
      modifies this
      ensures Valid() && live == old(live) - {objp}
      ensures forall p :: p in pages ==> p in old(pages)
    {
      hide CachesOk, SlabsOk, PagesOk, UsedOk, Owners, BusyBut, SlabOk, ListsOk;
      AllLive(caches, info, used, live, {});
      FoundAt(caches, slabs, info, pages, used, objp);
      NotLive(caches, info, used, live, objp);
      var c := pages[PageOf(objp)].cache;
      live := live - {objp};
      KmemCacheFree(c, objp, {objp});
      assert {objp} - {objp} == {};
    }

    /** What two callers have does not overlap. */
    lemma {:induction false} LiveApart(a: int, b: int)
      requires Valid() && a in live && b in live && a != b
      ensures a + live[a] <= b || b + live[b] <= a
    {
      hide CachesOk, SlabsOk, PagesOk, UsedOk;
      UsedApart(caches, slabs, info, pages, used, a, b, live[a], live[b]);
    }

    /** Nor is a control structure there. */
    lemma {:induction false} LiveOutside(a: int, sp: int)
      requires Valid() && a in live && sp in slabs
      ensures sp in info && info[sp].cache < |caches|
      ensures a + live[a] <= sp || ControlEnd(caches, info, sp) <= a
    {
      SlabAt(caches, slabs, info, sp);
      hide CachesOk, SlabsOk, PagesOk, UsedOk;
      ControlApart(caches, slabs, info, pages, used, a, live[a], sp);
    }

    /** Control structures do not overlap each other. */
    lemma {:induction false} ControlsDisjoint(sp: int, sp': int)
      requires Valid() && sp in slabs && sp' in slabs && sp != sp'
      ensures HasSlab(caches, slabs, info, sp) && HasSlab(caches, slabs, info, sp')
      ensures ControlEnd(caches, info, sp) <= sp' || ControlEnd(caches, info, sp') <= sp
    {
      hide CachesOk, SlabsOk, PagesOk, UsedOk, Owners, BusyBut, ListsOk;
      ControlsApart(caches, slabs, info, pages, used, live, sp, sp');
    }

    /** A slab is on slabs_full just when all its objects are in use, and there is none without one in use. */
    lemma {:induction false} OnItsList(sp: int)
      requires Valid() && sp in slabs
      ensures sp in info && info[sp].cache < |caches| && |slabs_full| == |slabs_notfull| == |caches|
      ensures var c := info[sp].cache;
              && 1 <= slabs[sp].inuse <= caches[c].num
              && (sp in slabs_full[c] <==> slabs[sp].inuse == caches[c].num)
              && (sp in slabs_notfull[c] <==> slabs[sp].inuse < caches[c].num)
    {
      SlabAt(caches, slabs, info, sp);
      hide CachesOk, SlabsOk, PagesOk, UsedOk, Owners;
      var c := info[sp].cache;
      ListOf(info, slabs_full, slabs_notfull, |caches|, c);
      ListHas(info, slabs_full[c], slabs_notfull[c], c, sp);
    }

    /** When everything has been given back, alloc_pages has all pages again. */
    lemma {:induction false} AllReturned()
      requires Valid() && live == map[]
      ensures pages == map[]
    {
      hide CachesOk, SlabsOk, PagesOk, UsedOk, Owners, BusyBut, ListsOk;
      NothingKept(caches, slabs, info, pages, used, live);
      assert forall p :: p !in pages;
      assert forall p :: p !in pages.Keys;
      assert pages.Keys == {};
    }
  }
}
