/**
 Swapping (kern/mm/swap.c): swap entries for frames, the active and the inactive list, swapping in and
 out, laundering. `Memory` is the machine of `Paging`; its methods update it in place.
 */
module Swap {
  import opened Defs
  import opened Lists
  import opened Paging
  import opened PagingSteps

  class Memory {
    var pt: Table
    var page_ref: seq<int>
    var page_swap: seq<bool>
    var page_index: seq<nat>
    var page_active: seq<bool>
    var page_dirty: seq<bool>
    var free: set<nat>
    var mem_map: seq<int>
    var active_list: seq<nat>
    var inactive_list: seq<nat>
    var nr_active: int
    var nr_inactive: int
    var hash_list: seq<seq<nat>>
    ghost var cache: map<nat, nat>
    var mem: seq<Content>
    var disk: seq<Content>
    /** The static cursor of try_alloc_swap_entry. */
    var next: nat

    /** swap_init: all frames are free, all slots unused, and nothing is mapped. */
    constructor (frames: nat, max_swap_offset: nat)
      requires max_swap_offset >= 1024
      ensures Inv(St(), {}, None, None)
      ensures Counted()
      ensures pt == map[] && |mem| == frames && |disk| == max_swap_offset
      ensures free == FramesBelow(frames) && page_swap == seq(frames, i => false)
    {
      pt := map[];
      page_ref := seq(frames, i => 0);
      page_swap := seq(frames, i => false);
      page_index := seq(frames, i => 0);
      page_active := seq(frames, i => false);
      page_dirty := seq(frames, i => false);
      free := FramesBelow(frames);
      mem_map := seq(max_swap_offset, i => SWAP_UNUSED);
      active_list, inactive_list, nr_active, nr_inactive := [], [], 0, 0;
      hash_list := seq(HASH_LIST_SIZE, i => []);
      cache := map[];
      mem := seq(frames, i => []);
      disk := seq(max_swap_offset, i => []);
      next := 1;
      new;
      InitialInv(St(), frames);
    }

    ghost function St(): State
      reads this
    {
      State(pt, page_ref, page_swap, page_index, page_active, page_dirty, free, mem_map, active_list, inactive_list,
            hash_list, cache, mem, disk)
    }

    /** The memory of each address space. */
    ghost function Memories(): map<Loc, Content>
      reads this
    {
      View(St())
    }

    /** nr_pages of the two lists, and the cursor. */
    ghost predicate Counted()
      reads this
    {
      nr_active == |active_list| && nr_inactive == |inactive_list| && 1 <= next < |mem_map|
    }

    // ---------- lists and flags ----------

    /** swap_active_list_add. */
    method SwapActiveListAdd(page: nat)
      requires page < |page_active| && Counted()
      modifies this`page_active, this`nr_active, this`active_list
      ensures Counted()
      ensures St() == old(St()).(act := old(page_active)[page := true], active := old(active_list) + [page])
    {
      page_active := page_active[page := true];
      nr_active := nr_active + 1;
      active_list := active_list + [page];
    }

    /** swap_inactive_list_add. */
    method SwapInactiveListAdd(page: nat)
      requires page < |page_active| && Counted()
      modifies this`page_active, this`nr_inactive, this`inactive_list
      ensures Counted()
      ensures St() == old(St()).(act := old(page_active)[page := false], inactive := old(inactive_list) + [page])
    {
      page_active := page_active[page := false];
      nr_inactive := nr_inactive + 1;
      inactive_list := inactive_list + [page];
    }

    /** swap_list_del: the list is the one that PG_active tells. */
    method SwapListDel(page: nat)
      requires page < |page_active| && Counted() && page in (if page_active[page] then active_list else inactive_list)
      requires NoDup(active_list) && NoDup(inactive_list)
      modifies this`nr_active, this`nr_inactive, this`active_list, this`inactive_list
      ensures Counted()
      ensures St() == old(St()).(active := LruDel(old(active_list), page, page_active[page]),
                                 inactive := LruDel(old(inactive_list), page, !page_active[page]))
    {
      if page_active[page] {
        DelIs(active_list, page);
        nr_active := nr_active - 1;
        active_list := Del(active_list, page);
      } else {
        DelIs(inactive_list, page);
        nr_inactive := nr_inactive - 1;
        inactive_list := Del(inactive_list, page);
      }
    }

    /** swap_page_del: the frame leaves its bucket. */
    method SwapPageDel(page: nat)
      requires page < |page_swap| && page < |page_index| && |hash_list| == HASH_LIST_SIZE
      requires page in hash_list[Hash(page_index[page])]
      modifies this`page_swap, this`hash_list, this`cache
      ensures St() == old(St()).(swap := old(page_swap)[page := false], cache := old(cache) - {page_index[page]},
                                 hash := DelFrom(old(hash_list), Hash(page_index[page]), page))
    {
      var i := Hash(page_index[page]);
      page_swap := page_swap[page := false];
      hash_list := hash_list[i := Del(hash_list[i], page)];
      cache := cache - {page_index[page]};
    }

    /** swap_hash_find: the frame that has the swap entry, if any. */
    method SwapHashFind(entry: nat) returns (r: Option<nat>)
      requires HashOk(page_swap, page_index, hash_list) && CacheOk(page_swap, page_index, cache, |mem_map|)
      ensures r == if entry in cache then Some(cache[entry]) else None
    {
      var bucket := hash_list[Hash(entry)];
      assert entry in cache ==> cache[entry] in bucket;
      for i := 0 to |bucket|
        invariant forall j :: 0 <= j < i ==> bucket[j] < |page_index| && page_index[bucket[j]] != entry
      {
        var page := bucket[i];
        assert page in hash_list[Hash(entry)];
        if page_index[page] == entry {
          return Some(page);
        }
      }
      return None;
    }

    /** swap_duplicate. */
    method SwapDuplicate(entry: nat)
      requires entry < |mem_map| && 0 <= mem_map[entry] < MAX_SWAP_REF
      modifies this`mem_map
      ensures St() == old(St()).(mem_map := old(mem_map)[entry := old(mem_map)[entry] + 1])
      ensures |mem_map| == old(|mem_map|)
    {
      mem_map := mem_map[entry := mem_map[entry] + 1];
    }

    /** swap_page_count. */
    function SwapPageCount(page: nat): int
      requires page < |page_swap| && page < |page_index| && (page_swap[page] ==> page_index[page] < |mem_map|)
      reads this
    {
      if !page_swap[page] then 0 else mem_map[page_index[page]]
    }

    // ---------- frames ----------

    /** alloc_page; it fails without a free frame, or when we are not lucky, and it does not sleep here. */
    method AllocPage(lucky: bool, ghost held: set<nat>, ghost pin: Option<nat>,
                     ghost pend: Option<Loc>) returns (r: Option<nat>)
      requires Inv(St(), held, pin, pend) && Counted()
      modifies this`free
      ensures Counted()
      ensures r.Some? <==> lucky && old(free) != {}
      ensures r == None ==> St() == old(St())
      ensures r.Some? ==> r.value in old(free) && St() == old(St()).(free := old(free) - {r.value})
      ensures r.Some? ==> Inv(St(), held + {r.value}, pin, pend) && r.value !in held && Memories() == old(Memories())
      ensures r.Some? ==> r.value < |page_swap| && !page_swap[r.value] && MapsOf(pt, r.value) == {}
      ensures r.Some? ==> page_ref[r.value] == 0
    {
      hide Inv, View, MapsOf;
      r := None;
      if lucky && free != {} {
        var f: nat :| f in free;
        Take(St(), held, pin, pend, f);
        free := free - {f};
        r := Some(f);
      }
    }

    /** free_page of a frame without references and without a swap entry. */
    method FreePage(page: nat, ghost held: set<nat>, ghost pin: Option<nat>, ghost pend: Option<Loc>)
      requires Inv(St(), held, pin, pend) && Counted() && page in held && pin != Some(page)
      modifies this`free, this`page_dirty, this`page_active
      ensures Counted()
      ensures Inv(St(), held - {page}, pin, pend)
      ensures Memories() == old(Memories())
      ensures St() == old(St()).(free := old(free) + {page}, dirty := page_dirty, act := page_active)
      ensures page < |old(page_dirty)| && page_dirty == old(page_dirty)[page := false]
    {
      hide Inv, View;
      Give(St(), held, pin, pend, page);
      SizesOf(St(), held, pin, pend);
      free := free + {page};
      page_dirty := page_dirty[page := false];
      page_active := page_active[page := false];
    }
  
    // ---------- swap entries ----------

    /**
     swap_free_page of a frame without references that is off its list: only a swap entry keeps it. `s` is
     the state before swap_list_del.
     */
    method SwapFreePage(page: nat, n: int, ghost s: State, ghost held: set<nat>, ghost pin: Option<nat>,
                        ghost pend: Option<Loc>)
      requires Inv(s, held, pin, pend) && Counted() && MayUncache(s, pin, page, n) && page !in held
      requires MapsOf(pt, page) == {} && pin != Some(page) && page < |page_active|
      requires St() == s.(active := LruDel(s.active, page, s.act[page]),
                          inactive := LruDel(s.inactive, page, !s.act[page]))
      modifies this
      ensures Counted()
      ensures Inv(St(), held, pin, pend)
      ensures Memories() == View(s)
      ensures pt == old(pt) && mem == old(mem) && disk == old(disk) && page_index == old(page_index)
      ensures page_ref == old(page_ref)
      ensures page_swap == old(page_swap)[page := false] && mem_map == old(mem_map)[page_index[page] := n]
      ensures active_list == old(active_list) && inactive_list == old(inactive_list)
      ensures page < |old(page_dirty)| && page_dirty == old(page_dirty)[page := false]
      ensures page !in old(free) && free == old(free) + {page}
    {
      hide Inv, View, Uncached, MapsOf, Hash;
      SizesOf(s, held, pin, pend);
      NotHeld(s, held, pin, pend, page);
      Uncache(s, held, pin, pend, page, n);
      ghost var u := Uncached(s, page, n);
      UncachedIs(s, page, n);
      var slot := page_index[page];
      SwapPageDel(page);
      mem_map := mem_map[slot := n];
      assert St() == u;
      FreePage(page, held + {page}, pin, pend);
      assert held + {page} - {page} == held;
    }

    /**
     swap_remove_entry and the resetting of the entry `l` that held the swap entry: the slot is counted down,
     and given up when nothing uses it any more.
     */
    method SwapRemoveEntry(entry: nat, l: Loc, ghost held: set<nat>, ghost pin: Option<nat>, ghost pend: Option<Loc>)
      requires Inv(St(), held, pin, pend) && Counted() && l in pt && pt[l] == Swapped(entry) && pend != Some(l)
      modifies this
      ensures Counted()
      ensures pt == old(pt) - {l} && mem == old(mem)
      ensures Inv(St(), held, pin, pend)
      ensures Memories() == old(Memories()) - {l}
      ensures SameObjs(pt, old(page_swap), old(page_index), page_swap, page_index, pin)
    {
      hide Inv, View, MapsOf, Uncached, Hash, SameObjs;
      ghost var s0 := St();
      SlotBound(s0, held, pin, pend, l, entry);
      SizesOf(s0, held, pin, pend);
      ghost var n := if mem_map[entry] == 1 && entry !in cache then SWAP_UNUSED else mem_map[entry] - 1;
      DropSwapped(s0, held, pin, pend, l, entry, n);
      pt := pt - {l};
      mem_map := mem_map[entry := mem_map[entry] - 1];
      SameObjsRefl(pt, page_swap, page_index, pin);
      if mem_map[entry] == 0 {
        var r := SwapHashFind(entry);
        if r.Some? {
          var page := r.value;
          if page_ref[page] != 0 {
            return;
          }
          NoRefs(St(), held, pin, pend, page);
          NotHeld(St(), held, pin, pend, page);
          UnusedObjs(St(), held, pin, pend, page);
          ghost var s1 := St();
          ListMember(s1, held, pin, pend, page);
          SwapListDel(page);
          SwapFreePage(page, SWAP_UNUSED, s1, held, pin, pend);
        } else {
          mem_map := mem_map[entry := SWAP_UNUSED];
          assert mem_map == old(mem_map)[entry := n];
        }
      }
    }
  
    /** The search of try_alloc_swap_entry, once around from the cursor: an unused slot, or else one without entries. */
    method ScanSlots() returns (empty: nat, zero: nat)
      requires 1 <= next < |mem_map|
      modifies this`next
      ensures 1 <= next < |mem_map|
      ensures empty != 0 ==> empty < |mem_map| && mem_map[empty] == SWAP_UNUSED
      ensures zero != 0 ==> zero < |mem_map| && mem_map[zero] == 0
      ensures empty == 0 ==> forall o :: 1 <= o < |mem_map| ==>
          mem_map[o] != SWAP_UNUSED && (zero == 0 ==> mem_map[o] != 0)
    {
      var end := next;
      ghost var k, n := 0, |mem_map|;
      empty, zero := 0, 0;
      var first := true;
      while first || (empty == 0 && next != end)
        invariant 0 <= k < n && (first <==> k == 0)
        invariant k < n - 1 ==> next == Around(end, k, n)
        invariant k == n - 1 ==> next == end
        invariant empty != 0 ==> empty < n && mem_map[empty] == SWAP_UNUSED
        invariant zero != 0 ==> zero < n && mem_map[zero] == 0
        invariant empty == 0 ==> forall j :: 0 <= j < k ==>
            mem_map[Around(end, j, n)] != SWAP_UNUSED && (zero == 0 ==> mem_map[Around(end, j, n)] != 0)
        invariant 1 <= next < n
        decreases n - k
      {
        assert k < n - 1;
        if mem_map[next] == SWAP_UNUSED {
          empty := next;
        } else if mem_map[next] == 0 {
          if zero == 0 {
            zero := next;
          }
        }
        next := if next + 1 == |mem_map| then 1 else next + 1;
        k, first := k + 1, false;
      }
      if empty == 0 {
        forall o | 1 <= o < n
          ensures mem_map[o] != SWAP_UNUSED && (zero == 0 ==> mem_map[o] != 0)
        {
          assert o == Around(end, if o >= end then o - end else o - end + n - 1, n);
        }
      }
    }

    /** The frame stays mapped, but has no swap entry any more: swap_page_del. `s` is the state before swap_list_del. */
    method SwapForget(page: nat, n: int, ghost s: State, ghost held: set<nat>, ghost pin: Option<nat>,
                      ghost pend: Option<Loc>)
      requires Inv(s, held, pin, pend) && Counted() && MayUncache(s, pin, page, n) && page < |page_ref|
      requires page_ref[page] != 0
      requires page < |page_active|
      requires St() == s.(active := LruDel(s.active, page, s.act[page]),
                          inactive := LruDel(s.inactive, page, !s.act[page]))
      modifies this
      ensures Counted()
      ensures Inv(St(), held, pin, pend)
      ensures Memories() == View(s)
      ensures pt == old(pt) && mem == old(mem) && page_index == old(page_index) && page_ref == old(page_ref)
      ensures page_swap == old(page_swap)[page := false] && mem_map == old(mem_map)[page_index[page] := n]
      ensures free == old(free)
    {
      hide Inv, View, Uncached, MapsOf, Hash;
      SizesOf(s, held, pin, pend);
      NoRefs(s, held, pin, pend, page);
      Uncache(s, held, pin, pend, page, n);
      ghost var u := Uncached(s, page, n);
      UncachedIs(s, page, n);
      var slot := page_index[page];
      SwapPageDel(page);
      mem_map := mem_map[slot := n];
      assert St() == u;
    }

    /**
     try_alloc_swap_entry: an unused slot; if there is none, one that no entry of the page tables holds, whose
     frame loses it; 0 just when every slot is held by some entry.
     */
    method TryAllocSwapEntry(ghost held: set<nat>, ghost pend: Option<Loc>) returns (entry: nat)
      requires Inv(St(), held, None, pend) && Counted()
      modifies this
      ensures Counted()
      ensures Inv(St(), held, None, pend)
      ensures Memories() == old(Memories())
      ensures pt == old(pt) && page_ref == old(page_ref) && |page_swap| == old(|page_swap|)
      ensures |mem_map| == old(|mem_map|)
      ensures forall f: nat :: f < |page_swap| && !old(page_swap[f]) ==>
                !page_swap[f] && (f in free <==> f in old(free))
      ensures entry != 0 ==> entry < |mem_map| && mem_map[entry] == SWAP_UNUSED
      ensures entry != 0 ==> Yielded(old(St()), St(), entry)
      ensures entry == 0 ==> St() == old(St()) && forall o :: 1 <= o < |mem_map| ==>
          mem_map[o] != SWAP_UNUSED && mem_map[o] != 0
    {
      hide Inv, View, Uncached, MapsOf, Hash;
      SizesOf(St(), held, None, pend);
      var empty, zero := ScanSlots();
      entry := 0;
      if empty != 0 {
        entry := empty;
      } else if zero != 0 {
        entry := zero;
        ZeroCached(St(), held, None, pend, zero);
        var r := SwapHashFind(entry);
        var page := r.value;
        NoRefs(St(), held, None, pend, page);
        NotHeld(St(), held, None, pend, page);
        ghost var s1 := St();
        ListMember(s1, held, None, pend, page);
        SwapListDel(page);
        if page_ref[page] == 0 {
          SwapFreePage(page, SWAP_UNUSED, s1, held, None, pend);
        } else {
          SwapForget(page, SWAP_UNUSED, s1, held, None, pend);
        }
      }
    }
  
    // ---------- swapping in and out ----------

    /** The end of swap_page_add: the frame gets the swap entry. */
    method SwapPageInsert(page: nat, entry: nat)
      requires page < |page_swap| && page < |page_index| && |hash_list| == HASH_LIST_SIZE
      modifies this`page_swap, this`page_index, this`hash_list, this`cache
      ensures St() == old(St()).(swap := old(page_swap)[page := true], index := old(page_index)[page := entry],
                                 cache := old(cache)[entry := page],
                                 hash := old(hash_list)[Hash(entry) := [page] + old(hash_list)[Hash(entry)]])
    {
      page_swap := page_swap[page := true];
      page_index := page_index[page := entry];
      hash_list := hash_list[Hash(entry) := [page] + hash_list[Hash(entry)]];
      cache := cache[entry := page];
    }

    /** swap_page_add with a new swap entry, and swap_active_list_add. */
    method SwapPageAdd(page: nat, ghost held: set<nat>, ghost pend: Option<Loc>) returns (ok: bool)
      requires Inv(St(), held, None, pend) && Counted() && page < |page_swap| && !page_swap[page] && page !in free
      requires page !in held
      modifies this
      ensures Counted()
      ensures Inv(St(), held, None, pend)
      ensures Memories() == old(Memories())
      ensures pt == old(pt) && page_ref == old(page_ref) && |page_swap| == old(|page_swap|)
      ensures ok ==> page_swap[page] && page < |page_index| && page < |page_dirty| && page_dirty[page]
      ensures !ok ==> St() == old(St())
      ensures ok <==> SlotLeft(old(mem_map))
    {
      hide Inv, View, Cached, Hash;
      var entry := TryAllocSwapEntry(held, pend);
      if entry == 0 {
        return false;
      }
      ghost var s := St();
      SizesOf(s, held, None, pend);
      Cache(s, held, None, pend, page, entry, true);
      CachedIs(s, page, entry, true);
      mem_map := mem_map[entry := 0];
      page_dirty := page_dirty[page := true];
      SwapPageInsert(page, entry);
      SwapActiveListAdd(page);
      assert St() == Cached(s, page, entry, true);
      assert held - {page} == held;
      return true;
    }

    /**
     swap_in_page: the frame that has the entry; if there is none, a new one is filled from disk. `lucky` and `read` are
     the outcomes of alloc_page and of swapfs_read.
     */
    method SwapInPage(entry: nat, lucky: bool, read: bool, ghost held: set<nat>, ghost pend: Option<Loc>)
      returns (ret: int, page: nat)
      requires Inv(St(), held, None, pend) && Counted() && 1 <= entry < |mem_map| && mem_map[entry] != SWAP_UNUSED
      modifies this
      ensures Counted()
      ensures Inv(St(), held, None, pend)
      ensures Memories() == old(Memories())
      ensures pt == old(pt) && mem_map == old(mem_map) && page_ref == old(page_ref)
      ensures ret == if entry in old(cache) || (lucky && old(free) != {} && read) then 0
                     else if lucky && old(free) != {} then -E_SWAP_FAULT else -E_NO_MEM
      ensures ret == 0 ==> entry in cache && cache[entry] == page
      ensures ret == 0 ==> page < |mem| && page < |page_swap| && page_swap[page] && page < |page_index|
      ensures ret == 0 ==> page_index[page] == entry
      ensures forall k :: k in pt ==>
          ObjOf(page_swap, page_index, pt[k]) == ObjOf(old(page_swap), old(page_index), pt[k])
    {
      hide Inv, View, MapsOf, Cached, Hash;
      SizesOf(St(), held, None, pend);
      var r := SwapHashFind(entry);
      if r.Some? {
        return 0, r.value;
      }
      var newpage := AllocPage(lucky, held, None, pend);
      if newpage == None {
        return -E_NO_MEM, 0;
      }
      page := newpage.value;
      ghost var s := St();
      SizesOf(s, held + {page}, None, pend);
      if !read {
        FreePage(page, held + {page}, None, pend);
        assert held + {page} - {page} == held;
        return -E_SWAP_FAULT, 0;
      }
      Fill(s, held + {page}, None, pend, page, disk[entry]);
      mem := mem[page := disk[entry]];
      ghost var s1 := St();
      Cache(s1, held + {page}, None, pend, page, entry, false);
      CachedIs(s1, page, entry, false);
      SwapPageInsert(page, entry);
      SwapActiveListAdd(page);
      assert St() == Cached(s1, page, entry, false);
      assert held + {page} - {page} == held;
      CachedObjs(pt, s1.swap, s1.index, page, entry);
      ret := 0;
    }

    /**
     The body of the loop of swap_out_vma: an entry that was accessed is given another chance, else its frame
     gets a swap entry, if it has none, and the entry holds that instead of the frame.
     */
    method SwapOutPte(l: Loc) returns (out: bool)
      requires Inv(St(), {}, None, None) && Counted() && l in pt && pt[l].Present?
      modifies this
      ensures Counted()
      ensures Inv(St(), {}, None, None)
      ensures Memories() == old(Memories())
      ensures l in pt && pt == old(pt)[l := pt[l]] && out == pt[l].Swapped?
      ensures old(pt)[l].a ==> St() == old(St()).(pt := old(pt)[l := old(pt)[l].(a := false)])
      ensures old(pt)[l].frame < |old(page_swap)| && (!old(pt)[l].a ==>
        (out <==> old(page_swap)[old(pt)[l].frame] || SlotLeft(old(mem_map))))
      ensures !old(pt)[l].a && !out ==> St() == old(St())
      ensures !SlotLeft(old(mem_map)) ==> !SlotLeft(mem_map) && page_swap == old(page_swap)
      ensures NoWider(old(pt), pt, 0, 0, 0)
    {
      hide Inv, View, Compatible;
      PresentOk(St(), {}, None, None, l);
      var p := pt[l];
      var page := p.frame;
      if p.a {
        SetBits(St(), {}, None, None, None, l, p.(a := false));
        pt := pt[l := p.(a := false)];
        return false;
      }
      if !page_swap[page] {
        var ok := SwapPageAdd(page, {}, None);
        if !ok {
          return false;
        }
      } else if p.d {
        MarkDirty(St(), {}, None, None, page);
        page_dirty := page_dirty[page := true];
      }
      Unmap(l, page);
      return true;
    }

    /** The entry of a frame with a swap entry becomes the swap entry. */
    method Unmap(l: Loc, page: nat)
      requires Inv(St(), {}, None, None) && Counted() && l in pt && Maps(pt[l], page)
      requires page < |page_swap| && page_swap[page] && page < |page_dirty| && (pt[l].d ==> page_dirty[page])
      modifies this`mem_map, this`page_ref, this`pt
      ensures Counted()
      ensures Inv(St(), {}, None, None)
      ensures Memories() == old(Memories())
      ensures page < |page_index| && pt == old(pt)[l := Swapped(page_index[page])]
      ensures !SlotLeft(old(mem_map)) ==> !SlotLeft(mem_map)
    {
      hide Inv, View, Compatible;
      ghost var s := St();
      SizesOf(s, {}, None, None);
      var entry := page_index[page];
      UnmapReady(s, l, page);
      DropPresent(s, {}, None, None, l, page_dirty);
      ghost var s1 := s.(pt := s.pt - {l}, ref := s.ref[page := s.ref[page] - 1]);
      AddSwapped(s1, {}, None, None, l, entry);
      SwapDuplicate(entry);
      page_ref := page_ref[page := page_ref[page] - 1];
      pt := pt[l := Swapped(entry)];
      assert pt == (s.pt - {l})[l := Swapped(entry)];
      assert View(s) == (View(s) - {l})[l := s.mem[page]] by {
        ViewAt(s, l);
      }
    }

    /**
     swap_out_vma for the pages `start` to `end` of a private area, from `addr` on: up to `require` present
     entries become swap entries. `swap_address` is where the next search of the address space begins.
     */
    method SwapOutVma(space: nat, start: nat, end: nat, addr: nat, require: nat, swap_address: nat)
      returns (free_count: nat, swap_address': nat)
      requires Inv(St(), {}, None, None) && Counted()
      modifies this
      ensures Counted()
      ensures Inv(St(), {}, None, None)
      ensures Memories() == old(Memories())
      ensures free_count <= require
      ensures pt.Keys == old(pt).Keys && |PresentIn(pt)| == |PresentIn(old(pt))| - free_count
      ensures NoWider(old(pt), pt, 0, 0, 0)
      ensures require == 0 || !(start <= addr < end) ==> free_count == 0 && St() == old(St())
      ensures require > 0 && start <= addr < end ==>
        Swept(old(pt), pt, space, addr, if free_count < require then end else swap_address', page_swap, mem_map)
      ensures free_count == 0 ==> swap_address' == swap_address
      ensures free_count > 0 ==> addr < swap_address' <= end && WentOut(old(pt), pt, Loc(space, swap_address' - 1))
      ensures free_count > 0 ==> forall va :: swap_address' <= va ==> !WentOut(old(pt), pt, Loc(space, va))
      ensures !SlotLeft(old(mem_map)) ==> !SlotLeft(mem_map) && page_swap == old(page_swap)
    {
      hide Inv, View, PresentIn, Swept, SlotLeft;
      free_count, swap_address' := 0, swap_address;
      if require == 0 || !(start <= addr < end) {
        return;
      }
      var va := addr;
      SweptNone(pt, space, addr, page_swap, mem_map);
      while va < end && free_count != require
        invariant Counted()
        invariant Inv(St(), {}, None, None)
        invariant Memories() == old(Memories())
        invariant free_count <= require && addr <= va <= end
        invariant pt.Keys == old(pt).Keys && |PresentIn(pt)| == |PresentIn(old(pt))| - free_count
        invariant NoWider(old(pt), pt, 0, 0, 0)
        invariant Swept(old(pt), pt, space, addr, va, page_swap, mem_map)
        invariant free_count == 0 ==> swap_address' == swap_address
        invariant free_count > 0 ==> addr < swap_address' <= va && WentOut(old(pt), pt, Loc(space, swap_address' - 1))
        invariant free_count > 0 ==> forall va :: swap_address' <= va ==> !WentOut(old(pt), pt, Loc(space, va))
        invariant free_count == require ==> va == swap_address'
        invariant !SlotLeft(old(mem_map)) ==> !SlotLeft(mem_map) && page_swap == old(page_swap)
      {
        var l := Loc(space, va);
        ghost var pt0, swap0, map0 := pt, page_swap, mem_map;
        SweptBehind(old(pt), pt, space, addr, va, page_swap, mem_map);
        if l in pt && pt[l].Present? {
          var out := SwapOutPte(l);
          PresentChange(pt0, l, pt[l]);
          if out {
            swap_address', free_count := va + 1, free_count + 1;
          }
        }
        SweptNext(old(pt), pt0, pt, space, addr, va, swap0, map0, page_swap, mem_map);
        va := va + 1;
      }
    }

    /** The beginning of swap_out_mm: find_vma, and where the search goes on. */
    method StartRound(areas: seq<(nat, nat)>, swap_address: nat) returns (k: nat, addr: nat, swap_address': nat)
      requires areas != []
      ensures Begins(areas, swap_address, k, addr)
      ensures swap_address' == Resumes(areas, swap_address)
    {
      k, swap_address' := 0, swap_address;
      while k < |areas| && areas[k].1 <= swap_address
        invariant k <= |areas|
        invariant forall i :: 0 <= i < k ==> areas[i].1 <= swap_address
      {
        k := k + 1;
      }
      if k == |areas| {
        k, swap_address' := 0, 0;
      }
      addr := if swap_address' < areas[k].0 then areas[k].0 else swap_address';
    }

    /**
     swap_out_mm: the areas are visited in turn, from the one behind the last page swapped out on,
       which is visited again
     at the end. `visits` are the ranges that have been visited.
     */
    method SwapOutMm(space: nat, areas: seq<(nat, nat)>, swap_address: nat, require: nat)
      returns (free_count: nat, swap_address': nat, ghost visits: seq<(nat, nat)>)
      requires Inv(St(), {}, None, None) && Counted()
      modifies this
      ensures Counted()
      ensures Inv(St(), {}, None, None)
      ensures Memories() == old(Memories())
      ensures free_count <= require
      ensures pt.Keys == old(pt).Keys && |PresentIn(pt)| == |PresentIn(old(pt))| - free_count
      ensures NoWider(old(pt), pt, 0, 0, 0)
      ensures SweptOver(old(pt), pt, space, visits, page_swap, mem_map)
      ensures if require > 0 && areas != [] then Round(areas, swap_address, visits, free_count < require, swap_address')
              else visits == [] && swap_address' == swap_address
      ensures free_count > 0 ==> swap_address' > 0 && WentOut(old(pt), pt, Loc(space, swap_address' - 1))
      ensures free_count == 0 && require > 0 && areas != [] ==> swap_address' == Resumes(areas, swap_address)
    {
      hide Inv, View, PresentIn, Swept, SweptOver, SlotLeft, Begins, Resumes, RoundFrom, WentOut;
      free_count, swap_address', visits := 0, swap_address, [];
      SweptOverNone(pt, space, page_swap, mem_map);
      if require == 0 || areas == [] {
        return;
      }
      var k, addr: nat;
      k, addr, swap_address' := StartRound(areas, swap_address);
      ghost var first, all := k, RoundFrom(areas, k, addr);
      RoundAt(areas, first, addr, 0);
      var i := 0;
      while i <= |areas|
        invariant Counted()
        invariant Inv(St(), {}, None, None)
        invariant Memories() == old(Memories())
        invariant free_count < require && k < |areas| && 0 <= i <= |areas| + 1
        invariant k == WrapAround(first + i, |areas|)
        invariant pt.Keys == old(pt).Keys && |PresentIn(pt)| == |PresentIn(old(pt))| - free_count
        invariant NoWider(old(pt), pt, 0, 0, 0)
        invariant |all| == |areas| + 1 && all == RoundFrom(areas, first, all[0].0)
        invariant Begins(areas, swap_address, first, all[0].0)
        invariant visits == all[..i]
        invariant i <= |areas| ==> all[i] == (addr, areas[k].1) && areas[k].0 <= addr
        invariant SweptOver(old(pt), pt, space, visits, page_swap, mem_map)
        invariant free_count > 0 ==> swap_address' > 0 && WentOut(old(pt), pt, Loc(space, swap_address' - 1))
        invariant free_count == 0 ==> swap_address' == Resumes(areas, swap_address)
      {
        var n: nat;
        ghost var pt0, swap0, map0 := pt, page_swap, mem_map;
        n, swap_address' := SwapOutVma(space, areas[k].0, areas[k].1, addr, require - free_count, swap_address');
        ghost var visit := (addr, if n < require - free_count then areas[k].1 else swap_address');
        SweptOnce(old(pt), pt0, pt, space, visits, visit, swap0, map0, page_swap, mem_map);
        visits := visits + [visit];
        free_count := free_count + n;
        if free_count == require {
          assert IsPart(visits, all, i, false, swap_address');
          break;
        }
        k := if k + 1 == |areas| then 0 else k + 1;
        i := i + 1;
        ghost var from := all[0].0;
        addr := areas[k].0;
        if i <= |areas| {
          RoundAt(areas, first, from, i);
        }
      }
      if free_count < require {
        assert IsPart(visits, all, i, true, swap_address');
      }
    }

    // ---------- page_launder and refill_inactive_scan ----------

    /** swapfs_write; it fails without effect when we are not lucky. */
    method SwapfsWrite(entry: nat, page: nat, lucky: bool) returns (ok: bool)
      requires entry < |disk| && page < |mem|
      modifies this`disk
      ensures ok == lucky
      ensures St() == old(St()).(disk := if ok then old(disk)[entry := mem[page]] else old(disk))
    {
      ok := lucky;
      if ok {
        disk := disk[entry := mem[page]];
      }
    }

    /** Writing a dirty frame to disk, with the slot counted up meanwhile; the frame stays dirty if that fails. */
    method WriteBack(page: nat, lucky: bool) returns (ok: bool)
      requires page < |page_dirty| && page < |page_index| && page < |mem| && page_dirty[page]
      requires page_index[page] < |mem_map| == |disk| && 0 <= mem_map[page_index[page]] < MAX_SWAP_REF
      modifies this`page_dirty, this`mem_map, this`disk
      ensures ok == lucky
      ensures !ok ==> St() == old(St())
      ensures ok ==>
          St() == old(St()).(dirty := old(page_dirty)[page := false], disk := old(disk)[page_index[page] := mem[page]])
    {
      var entry := page_index[page];
      page_dirty := page_dirty[page := false];
      SwapDuplicate(entry);
      ok := SwapfsWrite(entry, page, lucky);
      if !ok {
        page_dirty := page_dirty[page := true];
        assert page_dirty == old(page_dirty);
      }
      mem_map := mem_map[entry := mem_map[entry] - 1];
      assert mem_map == old(mem_map);
    }

    /** One round of page_launder for the first inactive frame; writes to the slots `failing` fail. */
    method LaunderFirst(failing: set<nat>) returns (freed: bool)
      requires Inv(St(), {}, None, None) && Counted() && inactive_list != []
      modifies this
      ensures Counted()
      ensures Inv(St(), {}, None, None)
      ensures Memories() == old(Memories())
      ensures pt == old(pt) && page_ref == old(page_ref) && page_index == old(page_index)
      ensures freed <==> MayFree(old(St()), old(inactive_list)[0], failing)
      ensures free == old(free) + (if freed then {old(inactive_list)[0]} else {})
      ensures freed ==> old(inactive_list)[0] !in old(free)
      ensures var page := old(inactive_list)[0];
              && inactive_list == old(inactive_list)[1..] + (if !freed
                                                             && !Referenced(old(St()), page) then [page] else [])
              && active_list == old(active_list) + if Referenced(old(St()), page) then [page] else []
      ensures ChangedAt(old(St()), St(), old(inactive_list)[0])
    {
      hide Inv, View, MapsOf, Moved;
      var page := inactive_list[0];
      ghost var s := St();
      FirstInactive(s, {}, None, None);
      ListMember(s, {}, None, None, page);
      SizesOf(s, {}, None, None);
      NotHeld(s, {}, None, None, page);
      NoRefs(s, {}, None, None, page);
      SwapListDel(page);
      if page_ref[page] != 0 {
        Move(s, {}, None, None, page, true);
        MovedIs(s, page, true);
        SwapActiveListAdd(page);
        assert St() == Moved(s, page, true);
        return false;
      }
      var entry := page_index[page];
      var n := mem_map[entry];
      if mem_map[entry] == 0 {
        n := SWAP_UNUSED;
      } else if page_dirty[page] {
        CountOk(s, {}, None, None, entry);
        var ok := WriteBack(page, entry !in failing);
        if !ok {
          Move(s, {}, None, None, page, false);
          MovedIs(s, page, false);
          SwapInactiveListAdd(page);
          assert St() == Moved(s, page, false);
          return false;
        }
        WriteOut(s, {}, None, None, page);
        s := s.(dirty := page_dirty, disk := disk);
      }
      SwapFreePage(page, n, s, {}, None, None);
      return true;
    }

    /**
     page_launder: inactive frames without references are given up, dirty ones after they were written to disk; those
     with references become active, and those that could not be written stay.
     */
    method PageLaunder(failing: set<nat>) returns (free_count: int)
      requires Inv(St(), {}, None, None) && Counted()
      modifies this
      ensures Counted()
      ensures Inv(St(), {}, None, None)
      ensures Memories() == old(Memories())
      ensures pt == old(pt)
      ensures |free| == |old(free)| + free_count
      ensures forall f: nat :: f in free <==>
          f in old(free) || (f in old(inactive_list) && MayFree(old(St()), f, failing))
      ensures active_list == old(active_list) + Among(old(inactive_list), ReferencedIn(old(St())))
      ensures inactive_list == Among(old(inactive_list), StuckIn(old(St()), failing))
    {
      hide Inv, View, MayFree, Referenced, ReferencedIn, StuckIn, ChangedAt, LaundersAlike, Among;
      ghost var s, all := St(), inactive_list;
      var maxscan := nr_inactive;
      ghost var k := 0;
      free_count := 0;
      LaunderNone(s, failing);
      while maxscan > 0 && inactive_list != []
        invariant Counted()
        invariant Inv(St(), {}, None, None)
        invariant Memories() == old(Memories())
        invariant pt == old(pt)
        invariant 0 <= k <= |all| && k + maxscan == |all|
        invariant |free| == |old(free)| + free_count
        invariant forall f: nat :: f in free <==> f in old(free) || (f in all[..k] && MayFree(s, f, failing))
        invariant active_list == old(active_list) + Among(all[..k], ReferencedIn(s))
        invariant inactive_list == all[k..] + Among(all[..k], StuckIn(s, failing))
        invariant LaundersAlike(s, St(), all[k..])
      {
        maxscan := maxscan - 1;
        ghost var s1, free1, active1, inactive1 := St(), free, active_list, inactive_list;
        var freed := LaunderFirst(failing);
        if freed {
          free_count := free_count + 1;
        }
        LaunderNext(s, s1, St(), k, failing);
        AmongLaundered(s, all, k, failing);
        k := k + 1;
      }
      assert all[..|all|] == all;
    }

    /** refill_inactive_scan: active frames without references become inactive, in their order. */
    method RefillInactiveScan()
      requires Inv(St(), {}, None, None) && Counted()
      modifies this
      ensures Counted()
      ensures Inv(St(), {}, None, None)
      ensures Memories() == old(Memories())
      ensures pt == old(pt) && free == old(free) && page_ref == old(page_ref)
      ensures active_list == Among(old(active_list), ReferencedIn(old(St())))
      ensures inactive_list == old(inactive_list) + Among(old(active_list), UnreferencedIn(old(St())))
    {
      hide Inv, View, Moved, LruDel, Sizes;
      var maxscan, i := nr_active, 0;
      ghost var all := active_list;
      ghost var k := 0;
      while maxscan > 0 && i < |active_list|
        invariant Counted()
        invariant Inv(St(), {}, None, None)
        invariant Memories() == old(Memories())
        invariant pt == old(pt) && free == old(free) && page_ref == old(page_ref)
        invariant 0 <= i && 0 <= maxscan && i + maxscan == |active_list| && k + maxscan == |all| && 0 <= k
        invariant active_list[..i] == Among(all[..k], ReferencedIn(old(St())))
        invariant active_list[i..] == all[k..]
        invariant inactive_list == old(inactive_list) + Among(all[..k], UnreferencedIn(old(St())))
      {
        maxscan := maxscan - 1;
        var page := active_list[i];
        ghost var s := St();
        InActive(s, {}, None, None, i);
        SizesOf(s, {}, None, None);
        AmongNext(all, k, ReferencedIn(old(St())));
        AmongNext(all, k, UnreferencedIn(old(St())));
        assert active_list[i..][0] == all[k..][0] == page;
        if page_ref[page] == 0 {
          Move(s, {}, None, None, page, false);
          MovedIs(s, page, false);
          SwapListDel(page);
          SwapInactiveListAdd(page);
          assert St() == Moved(s, page, false);
        } else {
          i := i + 1;
        }
        k := k + 1;
      }
      assert all[..|all|] == all;
    }
  }

  ghost predicate Referenced(s: State, f: nat) {
    f < |s.ref| && s.ref[f] != 0
  }

  /** What page_launder gives up: a frame without references whose slot needs no write, or can be written. */
  ghost predicate MayFree(s: State, f: nat, failing: set<nat>) {
    && f < |s.ref| && f < |s.index| && s.index[f] < |s.mem_map| && f < |s.dirty| && !Referenced(s, f)
    && (s.mem_map[s.index[f]] == 0 || !s.dirty[f] || s.index[f] !in failing)
  }

  ghost function ReferencedIn(s: State): set<nat> {
    set f: nat | f < |s.ref| && Referenced(s, f)
  }

  ghost function UnreferencedIn(s: State): set<nat> {
    set f: nat | f < |s.ref| && !Referenced(s, f)
  }

  /** The frames without references that page_launder cannot write. */
  ghost function StuckIn(s: State, failing: set<nat>): set<nat> {
    set f: nat | f < |s.ref| && !Referenced(s, f) && !MayFree(s, f, failing)
  }

  /** The members of a list that are in a set, in their order. */
  ghost function Among(list: seq<nat>, keep: set<nat>): seq<nat> {
    if list == [] then []
    else
      var n := |list| - 1;
      Among(list[..n], keep) + if list[n] in keep then [list[n]] else []
  }

  lemma {:induction false} AmongNext(list: seq<nat>, k: nat, keep: set<nat>)
    requires k < |list|
    ensures Among(list[..k + 1], keep) == Among(list[..k], keep) + if list[k] in keep then [list[k]] else []
  {
    assert list[..k + 1][..k] == list[..k];
  }

  /** What page_launder looks at has changed for the frame `f` at most. */
  ghost predicate ChangedAt(s: State, s': State, f: nat) {
    && f < |s.index| && s'.ref == s.ref && s'.index == s.index && |s'.mem_map| == |s.mem_map| && |s'.dirty| == |s.dirty|
    && (forall o :: 0 <= o < |s.mem_map| && o != s.index[f] ==> s'.mem_map[o] == s.mem_map[o])
    && (forall g :: 0 <= g < |s.dirty| && g != f ==> s'.dirty[g] == s.dirty[g])
  }

  /** page_launder does the same with these frames in both states. */
  ghost predicate LaundersAlike(s: State, s': State, list: seq<nat>) {
    && s'.ref == s.ref && s'.index == s.index && |s'.mem_map| == |s.mem_map| && |s'.dirty| == |s.dirty|
    && forall j :: 0 <= j < |list| ==>
        && (list[j] < |s.index| && s.index[list[j]] < |s.mem_map| ==>
              s'.mem_map[s.index[list[j]]] == s.mem_map[s.index[list[j]]])
        && (list[j] < |s.dirty| ==> s'.dirty[list[j]] == s.dirty[list[j]])
  }

  lemma {:induction false} LaunderNone(s: State, failing: set<nat>)
    ensures LaundersAlike(s, s, s.inactive) && s.inactive[..0] == [] && s.inactive[0..] == s.inactive
    ensures Among([], ReferencedIn(s)) == [] && Among([], StuckIn(s, failing)) == []
  {
  }

  lemma {:induction false} AmongLaundered(s: State, all: seq<nat>, k: nat, failing: set<nat>)
    requires k < |all| && all[k] < |s.ref|
    ensures Among(all[..k + 1], ReferencedIn(s)) ==
            Among(all[..k], ReferencedIn(s)) + if Referenced(s, all[k]) then [all[k]] else []
    ensures Among(all[..k + 1], StuckIn(s, failing)) ==
            Among(all[..k], StuckIn(s, failing))
            + if !Referenced(s, all[k]) && !MayFree(s, all[k], failing) then [all[k]] else []
    ensures all[k..] == [all[k]] + all[k + 1..] && all[..k + 1] == all[..k] + [all[k]]
  {
    hide Referenced, MayFree;
    AmongNext(all, k, ReferencedIn(s));
    AmongNext(all, k, StuckIn(s, failing));
  }

  /** Inactive frames have slots of their own. */
  lemma {:induction false} InactiveApart(s: State, k: nat)
    requires Inv(s, {}, None, None) && k < |s.inactive|
    ensures var f := s.inactive[k];
            && f < |s.ref| == |s.index| == |s.dirty| && s.index[f] < |s.mem_map|
            && forall j :: k < j < |s.inactive| ==> s.inactive[j] < |s.index| && s.inactive[j] != f
                                                    && s.index[s.inactive[j]] != s.index[f]
  {
    assert s.inactive[k] in s.inactive;
    forall j | k < j < |s.inactive|
      ensures s.inactive[j] < |s.index| && s.inactive[j] != s.inactive[k]
      ensures s.index[s.inactive[j]] != s.index[s.inactive[k]]
    {
      assert s.inactive[j] in s.inactive;
    }
  }

  /** One round of page_launder: the first of the frames that are left. */
  lemma {:induction false} LaunderNext(s: State, s1: State, s2: State, k: nat, failing: set<nat>)
    requires k < |s.inactive| && LaundersAlike(s, s1, s.inactive[k..]) && ChangedAt(s1, s2, s.inactive[k])
    requires Inv(s, {}, None, None)
    ensures MayFree(s1, s.inactive[k], failing) == MayFree(s, s.inactive[k], failing)
    ensures Referenced(s1, s.inactive[k]) == Referenced(s, s.inactive[k])
    ensures LaundersAlike(s, s2, s.inactive[k + 1..]) && s.inactive[k] < |s.ref|
  {
    hide Inv;
    InactiveApart(s, k);
    assert s.inactive[k] == s.inactive[k..][0];
    forall j | k < j < |s.inactive|
      ensures s.inactive[k + 1..][j - k - 1] == s.inactive[j] == s.inactive[k..][j - k]
    {
    }
  }

  /** A slot that try_alloc_swap_entry can give. */
  ghost predicate SlotLeft(mem_map: seq<int>) {
    exists o :: 1 <= o < |mem_map| && mem_map[o] in {SWAP_UNUSED, 0}
  }

  /** No slot is left for the frame, which has no swap entry either. */
  ghost predicate NoSlotFor(f: nat, swap: seq<bool>, mem_map: seq<int>) {
    !SlotLeft(mem_map) && (f < |swap| ==> !swap[f])
  }

  /** One visit of swap_out_vma: a present entry loses PTE_A, or becomes a swap entry unless there is no slot for it. */
  ghost predicate Visited(p: Pte, p': Pte, swap': seq<bool>, mem_map': seq<int>) {
    match p
    case Present(f, _, a, _) =>
      if a then p' == p.(a := false) else p'.Swapped? || (p' == p && NoSlotFor(f, swap', mem_map'))
    case Swapped(_) => p' == p
  }

  /** The entries of `space` from `start` to `end` have been visited, and all others are as before. */
  ghost predicate Swept(pt: Table, pt': Table, space: nat, start: nat, end: nat, swap': seq<bool>, mem_map': seq<int>) {
    forall l :: l in pt ==>
      && l in pt'
      && if l.space == space && start <= l.va < end then Visited(pt[l], pt'[l], swap', mem_map') else pt'[l] == pt[l]
  }

  /** A present entry has become a swap entry. */
  ghost predicate WentOut(pt: Table, pt': Table, l: Loc) {
    l in pt && pt[l].Present? && l in pt' && pt'[l].Swapped?
  }

  /** How many of the ranges hold `va`. */
  ghost function Times(visits: seq<(nat, nat)>, va: nat): nat {
    if visits == [] then 0
    else
      var n := |visits| - 1;
      Times(visits[..n], va) + if visits[n].0 <= va < visits[n].1 then 1 else 0
  }

  /** After `n` visits; the second one finds that PTE_A has not been set again. */
  ghost predicate After(n: nat, p: Pte, p': Pte, swap': seq<bool>, mem_map': seq<int>) {
    if n == 0 then p' == p
    else if n == 1 || p.Swapped? then Visited(p, p', swap', mem_map')
    else p'.Swapped? || (p' == p.(a := false) && NoSlotFor(p.frame, swap', mem_map'))
  }

  /** The ranges of `space` have been visited in turn, and all other entries are as before. */
  ghost predicate SweptOver(pt: Table, pt': Table, space: nat, visits: seq<(nat, nat)>, swap': seq<bool>,
                            mem_map': seq<int>) {
    forall l :: l in pt ==>
      l in pt' && After(if l.space == space then Times(visits, l.va) else 0, pt[l], pt'[l], swap', mem_map')
  }

  /** Where swap_out_mm begins: with the first area that ends behind `swap_address`, else with the first one. */
  ghost predicate Begins(areas: seq<(nat, nat)>, swap_address: nat, k: nat, from: nat) {
    && k < |areas|
    && if forall i :: 0 <= i < |areas| ==> areas[i].1 <= swap_address then k == 0 && from == areas[0].0
       else
         && areas[k].1 > swap_address && (forall i :: 0 <= i < k ==> areas[i].1 <= swap_address)
         && from == if swap_address < areas[k].0 then areas[k].0 else swap_address
  }

  /** Where the next search begins when no page goes out. */
  ghost function Resumes(areas: seq<(nat, nat)>, swap_address: nat): nat {
    if forall i :: 0 <= i < |areas| ==> areas[i].1 <= swap_address then 0 else swap_address
  }

  function WrapAround(j: nat, n: nat): int {
    if j < n then j else if j < 2 * n then j - n else j - 2 * n
  }

  lemma {:induction false} RoundAt(areas: seq<(nat, nat)>, k: nat, from: nat, i: nat)
    requires k < |areas| && i <= |areas|
    ensures |RoundFrom(areas, k, from)| == |areas| + 1
    ensures RoundFrom(areas, k, from)[i] == if i == 0 then (from, areas[k].1) else areas[WrapAround(k + i, |areas|)]
  {
  }

  /** One round: the rest of the area at `k`, all others, and this area again. */
  ghost function RoundFrom(areas: seq<(nat, nat)>, k: nat, from: nat): seq<(nat, nat)>
    requires k < |areas|
  {
    [(from, areas[k].1)] + areas[k + 1..] + areas[..k + 1]
  }

  /** The whole round, or its beginning up to a page in the range at `i`. */
  ghost predicate IsPart(visits: seq<(nat, nat)>, all: seq<(nat, nat)>, i: nat, whole: bool, upto: nat) {
    if whole then visits == all
    else i < |all| && visits == all[..i] + [(all[i].0, upto)] && all[i].0 < upto <= all[i].1
  }

  ghost predicate Round(areas: seq<(nat, nat)>, swap_address: nat, visits: seq<(nat, nat)>, whole: bool, upto: nat) {
    exists k: nat, from: nat, i: nat ::
      Begins(areas, swap_address, k, from) && IsPart(visits, RoundFrom(areas, k, from), i, whole, upto)
  }

  lemma {:induction false} SweptOverNone(pt: Table, space: nat, swap: seq<bool>, mem_map: seq<int>)
    ensures SweptOver(pt, pt, space, [], swap, mem_map)
  {
  }

  /** One more range; what went out stays so. */
  lemma {:induction false} SweptOnce(pt: Table, pt1: Table, pt2: Table, space: nat, visits: seq<(nat, nat)>,
                                     visit: (nat, nat), swap1: seq<bool>, map1: seq<int>, swap2: seq<bool>,
                                     map2: seq<int>)
    requires SweptOver(pt, pt1, space, visits, swap1, map1) && pt1.Keys == pt.Keys
    requires !SlotLeft(map1) ==> !SlotLeft(map2) && swap2 == swap1
    requires Swept(pt1, pt2, space, visit.0, visit.1, swap2, map2) || (visit.0 >= visit.1 && pt2 == pt1)
    ensures SweptOver(pt, pt2, space, visits + [visit], swap2, map2)
    ensures forall l :: WentOut(pt, pt1, l) || WentOut(pt1, pt2, l) ==> WentOut(pt, pt2, l)
  {
    hide SlotLeft;
    forall l | l in pt && l.space == space
      ensures Times(visits + [visit], l.va) == Times(visits, l.va) + if visit.0 <= l.va < visit.1 then 1 else 0
    {
      TimesNext(visits, visit, l.va);
    }
  }

  lemma {:induction false} TimesNext(visits: seq<(nat, nat)>, visit: (nat, nat), va: nat)
    ensures Times(visits + [visit], va) == Times(visits, va) + if visit.0 <= va < visit.1 then 1 else 0
  {
    assert (visits + [visit])[..|visits|] == visits;
  }

  lemma {:induction false} SweptNone(pt: Table, space: nat, start: nat, swap: seq<bool>, mem_map: seq<int>)
    ensures Swept(pt, pt, space, start, start, swap, mem_map)
  {
  }

  lemma {:induction false} SweptBehind(pt: Table, pt': Table, space: nat, start: nat, end: nat, swap': seq<bool>,
                                       mem_map': seq<int>)
    requires Swept(pt, pt', space, start, end, swap', mem_map')
    ensures forall va :: end <= va && Loc(space, va) in pt ==>
        Loc(space, va) in pt' && pt'[Loc(space, va)] == pt[Loc(space, va)]
  {
  }

  /** The next entry: slots that are not left stay so. */
  lemma {:induction false} SweptNext(pt: Table, pt1: Table, pt2: Table, space: nat, start: nat, end: nat,
                                     swap1: seq<bool>, map1: seq<int>, swap2: seq<bool>, map2: seq<int>)
    requires Swept(pt, pt1, space, start, end, swap1, map1) && start <= end && pt1.Keys == pt.Keys
    requires !SlotLeft(map1) ==> !SlotLeft(map2) && swap2 == swap1
    requires forall l :: l in pt1 && l != Loc(space, end) ==> l in pt2 && pt2[l] == pt1[l]
    requires Loc(space, end) in pt1 ==> Loc(space, end) in pt2
    requires Loc(space, end) in pt1 ==> Visited(pt1[Loc(space, end)], pt2[Loc(space, end)], swap2, map2)
    ensures Swept(pt, pt2, space, start, end + 1, swap2, map2)
  {
    hide SlotLeft;
  }

  /** A slot is taken that was unused; only if there is none, one without entries whose frame loses it. */
  ghost predicate Yielded(s: State, s': State, o: nat) {
    && o < |s.mem_map|
    && (s.mem_map[o] == SWAP_UNUSED ==> s' == s)
    && (s.mem_map[o] != SWAP_UNUSED ==>
          && (forall q :: 1 <= q < |s.mem_map| ==> s.mem_map[q] != SWAP_UNUSED)
          && s.mem_map[o] == 0 && o in s.cache && s.cache[o] < |s.swap| == |s.ref|
          && s'.swap == s.swap[s.cache[o] := false] && s'.mem_map == s.mem_map[o := SWAP_UNUSED]
          && s'.free == s.free + if s.ref[s.cache[o]] == 0 then {s.cache[o]} else {})
  }

  /** Bucket `i` without the frame. */
  function DelFrom(hash: seq<seq<nat>>, i: nat, page: nat): seq<seq<nat>>
    requires i < |hash| && page in hash[i]
  {
    hash[i := Del(hash[i], page)]
  }

  /** The `j`-th slot after `end`, around the end of the table. */
  function Around(end: nat, j: int, n: int): int {
    if end + j < n then end + j else end + j - (n - 1)
  }

  /** The entries stand for the same pages as before, and so does the frame in hand. */
  ghost predicate SameObjs(pt: Table, swap: seq<bool>, index: seq<nat>, swap': seq<bool>, index': seq<nat>,
                           pin: Option<nat>) {
    && |swap'| == |swap| && index' == index
    && (forall k :: k in pt ==> ObjOf(swap', index', pt[k]) == ObjOf(swap, index, pt[k]))
    && (forall f: nat :: f < |swap| && swap'[f] ==> swap[f])
    && (pin.Some? && pin.value < |swap| ==> swap'[pin.value] == swap[pin.value])
  }

  lemma {:induction false} SizesOf(s: State, held: set<nat>, pin: Option<nat>, pend: Option<Loc>)
    requires Inv(s, held, pin, pend)
    ensures Sizes(s) && HashOk(s.swap, s.index, s.hash) && CacheOk(s.swap, s.index, s.cache, |s.mem_map|)
    ensures NoDup(s.active) && NoDup(s.inactive)
  {
  }

  lemma {:induction false} UncachedIs(s: State, f: nat, n: int)
    requires Sizes(s) && f < |s.swap| && s.index[f] < |s.mem_map| && f in s.hash[Hash(s.index[f])]
    ensures var o := s.index[f]; var i := Hash(o);
      Uncached(s, f, n) == s.(swap := s.swap[f := false], cache := s.cache - {o}, mem_map := s.mem_map[o := n],
       hash := s.hash[i := Del(s.hash[i], f)],
       active := LruDel(s.active, f, s.act[f]), inactive := LruDel(s.inactive, f, !s.act[f]))
  {
  }

  /** Without references a frame is mapped by no entry. */
  lemma {:induction false} NoRefs(s: State, held: set<nat>, pin: Option<nat>, pend: Option<Loc>, f: nat)
    requires Inv(s, held, pin, pend) && f < |s.ref|
    ensures s.ref[f] == 0 <==> MapsOf(s.pt, f) == {} && pin != Some(f)
    ensures s.ref[f] >= 0
  {
    assert |MapsOf(s.pt, f)| == 0 <==> MapsOf(s.pt, f) == {};
  }

  lemma {:induction false} SameObjsRefl(pt: Table, swap: seq<bool>, index: seq<nat>, pin: Option<nat>)
    ensures SameObjs(pt, swap, index, swap, index, pin)
  {
  }

  /** A frame with a swap entry is not in hand. */
  lemma {:induction false} NotHeld(s: State, held: set<nat>, pin: Option<nat>, pend: Option<Loc>, f: nat)
    requires Inv(s, held, pin, pend) && f < |s.swap| && s.swap[f]
    ensures f !in held && f !in s.free && 1 <= s.index[f] < |s.mem_map|
  {
    assert s.index[f] in s.cache;
  }

  /** No entry stands for a frame that none maps. */
  lemma {:induction false} UnusedObjs(s: State, held: set<nat>, pin: Option<nat>, pend: Option<Loc>, f: nat)
    requires Inv(s, held, pin, pend) && f < |s.swap| && MapsOf(s.pt, f) == {} && pin != Some(f)
    ensures SameObjs(s.pt, s.swap, s.index, s.swap[f := false], s.index, pin)
  {
    forall k | k in s.pt
      ensures ObjOf(s.swap[f := false], s.index, s.pt[k]) == ObjOf(s.swap, s.index, s.pt[k])
    {
      assert Maps(s.pt[k], f) ==> k in MapsOf(s.pt, f);
    }
  }

  /** A slot in use that no entry holds has a frame. */
  lemma {:induction false} ZeroCached(s: State, held: set<nat>, pin: Option<nat>, pend: Option<Loc>, o: nat)
    requires Inv(s, held, pin, pend) && 1 <= o < |s.mem_map| && s.mem_map[o] == 0
    ensures o in s.cache && s.cache[o] < |s.swap| && s.swap[s.cache[o]] && s.index[s.cache[o]] == o
  {
  }

  lemma {:induction false} ListMember(s: State, held: set<nat>, pin: Option<nat>, pend: Option<Loc>, f: nat)
    requires Inv(s, held, pin, pend) && f < |s.swap| && s.swap[f]
    ensures f < |s.act| && f in if s.act[f] then s.active else s.inactive
    ensures NoDup(s.active) && NoDup(s.inactive)
  {
  }

  lemma {:induction false} CachedIs(s: State, f: nat, o: nat, fresh_slot: bool)
    requires Sizes(s) && f < |s.swap| && o < |s.mem_map|
    ensures Cached(s, f, o, fresh_slot) ==
      s.(swap := s.swap[f := true], index := s.index[f := o], cache := s.cache[o := f],
         hash := s.hash[Hash(o) := [f] + s.hash[Hash(o)]],
         mem_map := if fresh_slot then s.mem_map[o := 0] else s.mem_map,
           dirty := if fresh_slot then s.dirty[f := true] else s.dirty,
         act := s.act[f := true], active := s.active + [f])
  {
  }

  lemma {:induction false} PresentOk(s: State, held: set<nat>, pin: Option<nat>, pend: Option<Loc>, l: Loc)
    requires Inv(s, held, pin, pend) && l in s.pt && s.pt[l].Present?
    ensures s.pt[l].frame < |s.swap| && s.pt[l].frame !in s.free && s.pt[l].frame !in held && Sizes(s)
    ensures l.space < MAX_SPACES
    ensures s.ref[s.pt[l].frame] > 0
  {
    assert EntryOk(s.pt[l], |s.swap|, s.free, s.mem_map);
    assert l in MapsOf(s.pt, s.pt[l].frame);
    assert |MapsOf(s.pt, s.pt[l].frame)| > 0;
  }

  /** Others that stand for the same page as `l` may go on doing so when `l` gets the swap entry. */
  lemma {:induction false} UnmapReady(s: State, l: Loc, f: nat)
    requires Inv(s, {}, None, None) && l in s.pt && Maps(s.pt[l], f) && f < |s.swap| && s.swap[f]
    ensures f < |s.ref| && l.space < MAX_SPACES && 1 <= s.index[f] < |s.mem_map|
    ensures 0 <= s.mem_map[s.index[f]] < MAX_SWAP_REF
    ensures Compatible(s.pt - {l}, s.swap, s.index, l, Swapped(s.index[f]))
    ensures ValOf(s.swap, s.index, s.cache, s.mem, s.disk, Swapped(s.index[f])) == s.mem[f]
  {
    SlotBound(s, {}, None, None, l, s.index[f]);
    PresentOk(s, {}, None, None, l);
    assert s.cache[s.index[f]] == f;
    forall k | k in s.pt - {l} && ObjOf(s.swap, s.index, (s.pt - {l})[k]) == Slot(s.index[f])
      ensures k.va == l.va && !Writable(s.pt[k])
    {
      assert ObjOf(s.swap, s.index, s.pt[k]) == ObjOf(s.swap, s.index, s.pt[l]);
    }
  }

  lemma {:induction false} ViewAt(s: State, l: Loc)
    requires l in s.pt && s.pt[l].Present? && s.pt[l].frame < |s.mem|
    ensures View(s) == (View(s) - {l})[l := s.mem[s.pt[l].frame]]
  {
  }

  lemma {:induction false} FirstInactive(s: State, held: set<nat>, pin: Option<nat>, pend: Option<Loc>)
    requires Inv(s, held, pin, pend) && s.inactive != []
    ensures var f := s.inactive[0];
            && f < |s.swap| == |s.act| && s.swap[f] && !s.act[f]
            && LruDel(s.inactive, f, true) == s.inactive[1..] && s.act[f := false] == s.act
  {
    assert s.inactive[0] in s.inactive;
  }

  lemma {:induction false} InActive(s: State, held: set<nat>, pin: Option<nat>, pend: Option<Loc>, i: nat)
    requires Inv(s, held, pin, pend) && i < |s.active|
    ensures var f := s.active[i];
            && f < |s.swap| == |s.act| && s.swap[f] && s.act[f]
            && LruDel(s.active, f, true) == s.active[..i] + s.active[i + 1..]
            && LruDel(s.inactive, f, false) == s.inactive
  {
    assert s.active[i] in s.active;
    DelAt(s.active, i);
  }

  lemma {:induction false} MovedIs(s: State, f: nat, to: bool)
    requires f < |s.act|
    ensures var active, inactive := LruDel(s.active, f, s.act[f]), LruDel(s.inactive, f, !s.act[f]);
      Moved(s, f, to) == s.(act := s.act[f := to], active := if to then active + [f] else active,
                            inactive := if to then inactive else inactive + [f])
  {
  }

  /** The count of a slot in use is in range. */
  lemma {:induction false} CountOk(s: State, held: set<nat>, pin: Option<nat>, pend: Option<Loc>, o: nat)
    requires Inv(s, held, pin, pend) && 1 <= o < |s.mem_map| && o in s.cache
    ensures 0 <= s.mem_map[o] < MAX_SWAP_REF
  {
    if s.mem_map[o] > 0 {
      assert HoldsOf(s.pt, o) != {};
      var l :| l in HoldsOf(s.pt, o);
      SlotBound(s, held, pin, pend, l, o);
    }
  }

  /** Nothing is mapped, all frames are free and all slots unused. */
  ghost predicate Initial(s: State, frames: nat) {
    && Sizes(s) && |s.ref| == frames && s.pt == map[] && s.cache == map[] && s.active == [] && s.inactive == []
    && (forall f :: 0 <= f < frames ==> s.ref[f] == 0 && !s.swap[f] && f in s.free)
    && (forall f: nat :: f in s.free ==> f < frames)
    && (forall o :: 0 <= o < |s.mem_map| ==> s.mem_map[o] == SWAP_UNUSED)
    && (forall i :: 0 <= i < |s.hash| ==> s.hash[i] == [])
  }

  lemma {:induction false} InitialInv(s: State, frames: nat)
    requires Initial(s, frames)
    ensures Inv(s, {}, None, None)
  {
    forall f: nat
      ensures MapsOf(s.pt, f) == {} && HoldsOf(s.pt, f) == {}
    {
    }
  }

  /** No entry stands for a frame that none maps, so none is renamed. */
  lemma {:induction false} CachedObjs(pt: Table, swap: seq<bool>, index: seq<nat>, f: nat, o: nat)
    requires f < |swap| == |index| && MapsOf(pt, f) == {}
    ensures forall k :: k in pt ==> ObjOf(swap[f := true], index[f := o], pt[k]) == ObjOf(swap, index, pt[k])
  {
    forall k | k in pt
      ensures ObjOf(swap[f := true], index[f := o], pt[k]) == ObjOf(swap, index, pt[k])
    {
      assert Maps(pt[k], f) ==> k in MapsOf(pt, f);
    }
  }

  /** The pages that have an entry with a frame. */
  ghost function PresentIn(pt: Table): set<Loc> {
    set l | l in pt && pt[l].Present?
  }

  lemma {:induction false} PresentChange(pt: Table, l: Loc, p: Pte)
    requires l in pt && pt[l].Present?
    ensures |PresentIn(pt[l := p])| == |PresentIn(pt)| - if p.Present? then 0 else 1
  {
    assert l in PresentIn(pt);
    assert PresentIn(pt[l := p]) == if p.Present? then PresentIn(pt) else PresentIn(pt) - {l};
    SizeWith(PresentIn(pt), l);
  }
}
