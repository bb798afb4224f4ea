/**
 The steps from which the operations of paging and swap are made: each keeps the invariant of
 `Paging`, and what it does to the memory of the address spaces is said with `View`.
 */
module PagingSteps {
  import opened Lists
  import opened Paging

  // ---------- one entry of the page tables ----------

  lemma {:induction false} MapsAdded(pt: Table, l: Loc, p: Pte, f: nat)
    requires l !in pt
    ensures MapsOf(pt[l := p], f) == if Maps(p, f) then MapsOf(pt, f) + {l} else MapsOf(pt, f)
    ensures l !in MapsOf(pt, f)
  {
  }

  lemma {:induction false} MapsDropped(pt: Table, l: Loc, f: nat)
    requires l in pt
    ensures MapsOf(pt - {l}, f) == MapsOf(pt, f) - {l}
    ensures l in MapsOf(pt, f) <==> Maps(pt[l], f)
  {
  }

  lemma {:induction false} HoldsAdded(pt: Table, l: Loc, p: Pte, o: nat)
    requires l !in pt
    ensures HoldsOf(pt[l := p], o) == if Holds(p, o) then HoldsOf(pt, o) + {l} else HoldsOf(pt, o)
    ensures l !in HoldsOf(pt, o)
  {
  }

  lemma {:induction false} HoldsDropped(pt: Table, l: Loc, o: nat)
    requires l in pt
    ensures HoldsOf(pt - {l}, o) == HoldsOf(pt, o) - {l}
    ensures l in HoldsOf(pt, o) <==> Holds(pt[l], o)
  {
  }

  /** The size of a set with one element more or less. */
  lemma {:induction false} SizeWith<T>(s: set<T>, x: T)
    ensures x !in s ==> |s + {x}| == |s| + 1
    ensures x in s ==> |s - {x}| == |s| - 1
  {
    if x in s {
      assert s == (s - {x}) + {x};
    }
  }

  /** The entries of one page are in different address spaces, so there are not too many of them. */
  lemma {:induction false} FewSpaces(s: set<Loc>, va: nat, n: nat)
    requires forall l :: l in s ==> l.va == va && l.space < n
    ensures |s| <= n
  {
    if n == 0 {
      assert s <= {};
    } else {
      var rest := s - {Loc(n - 1, va)};
      forall l | l in rest
        ensures l.space < n - 1
      {
        assert l != Loc(n - 1, va);
      }
      FewSpaces(rest, va, n - 1);
      SizeWith(s, Loc(n - 1, va));
      assert Loc(n - 1, va) !in s ==> rest == s;
    }
  }

  // ---------- an entry is added ----------

  /** Whatever stands for the same page as the new entry is at the same address, and neither is writable. */
  ghost predicate Compatible(pt: Table, swap: seq<bool>, index: seq<nat>, l: Loc, p: Pte) {
    forall k :: k in pt && ObjOf(swap, index, pt[k]) == ObjOf(swap, index, p) ==>
        k.va == l.va && !Writable(pt[k]) && !Writable(p)
  }

  lemma {:induction false} AddPair(pt: Table, swap: seq<bool>, index: seq<nat>, l: Loc, p: Pte)
    requires PairOk(pt, swap, index) && l !in pt && Compatible(pt, swap, index, l, p)
    ensures PairOk(pt[l := p], swap, index)
  {
  }

  lemma {:induction false} AddClean(pt: Table, l: Loc, p: Pte, swap: seq<bool>, index: seq<nat>, dirty: seq<bool>,
                                    mem: seq<Content>, disk: seq<Content>, pend: Option<Loc>)
    requires CleanOk(pt, swap, index, dirty, mem, disk, pend) && l !in pt
    ensures CleanOk(pt[l := p], swap, index, dirty, mem, disk, pend)
  {
    forall f: nat | f < |swap| && Dirty(pt, dirty, pend, f)
      ensures Dirty(pt[l := p], dirty, pend, f)
    {
      if !dirty[f] {
        var k :| k in pt && Maps(pt[k], f) && (pt[k].d || pend == Some(k));
        assert pt[l := p][k] == pt[k];
      }
    }
  }

  lemma {:induction false} AddMapsCounts(pt: Table, l: Loc, p: Pte, f: nat, ref: seq<int>, swap: seq<bool>,
                                         free: set<nat>, held: set<nat>, mem_map: seq<int>, cache: map<nat, nat>)
    requires l !in pt && Maps(p, f) && f !in free && |ref| == |swap|
    requires RefOk(pt, ref, Some(f)) && UsedOk(pt, swap, free, held, Some(f)) && SlotOk(pt, mem_map, cache)
    ensures RefOk(pt[l := p], ref, None) && UsedOk(pt[l := p], swap, free, held - {f}, None)
    ensures SlotOk(pt[l := p], mem_map, cache)
  {
    var pt' := pt[l := p];
    forall g: nat
      ensures MapsOf(pt', g) == if g == f then MapsOf(pt, g) + {l} else MapsOf(pt, g)
      ensures |MapsOf(pt', g)| == |MapsOf(pt, g)| + if g == f then 1 else 0
    {
      MapsAdded(pt, l, p, g);
      SizeWith(MapsOf(pt, g), l);
    }
    forall o: nat
      ensures HoldsOf(pt', o) == HoldsOf(pt, o)
    {
      HoldsAdded(pt, l, p, o);
    }
  }

  /** The end of page_insert: the entry is set, and accounts for the reference taken before. */
  lemma {:induction false} AddPresent(s: State, held: set<nat>, pend: Option<Loc>, l: Loc, p: Pte)
    requires p.Present? && Inv(s, held, Some(p.frame), pend) && l !in s.pt && l.space < MAX_SPACES
    requires p.frame < |s.ref| && p.frame !in s.free && Compatible(s.pt, s.swap, s.index, l, p)
    ensures var s' := s.(pt := s.pt[l := p]);
            Inv(s', held - {p.frame}, None, pend) && View(s') == View(s)[l := s.mem[p.frame]]
  {
    hide PteOk, RefOk, UsedOk, SlotOk, CacheOk, HashOk, LruOk, CleanOk, PairOk, Compatible;
    AddPteOk(s.pt, |s.swap|, s.free, s.mem_map, l, p);
    AddMapsCounts(s.pt, l, p, p.frame, s.ref, s.swap, s.free, held, s.mem_map, s.cache);
    AddClean(s.pt, l, p, s.swap, s.index, s.dirty, s.mem, s.disk, pend);
    AddPair(s.pt, s.swap, s.index, l, p);
  }

  lemma {:induction false} AddHoldsCounts(pt: Table, l: Loc, o: nat, ref: seq<int>, swap: seq<bool>, free: set<nat>,
                                          held: set<nat>, pin: Option<nat>, mem_map: seq<int>, cache: map<nat, nat>)
    requires l !in pt && 1 <= o < |mem_map| && 0 <= mem_map[o] < MAX_SWAP_REF
    requires RefOk(pt, ref, pin) && UsedOk(pt, swap, free, held, pin) && SlotOk(pt, mem_map, cache)
    ensures var pt' := pt[l := Swapped(o)];
            RefOk(pt', ref, pin) && UsedOk(pt', swap, free, held, pin)
              && SlotOk(pt', mem_map[o := mem_map[o] + 1], cache)
  {
    var pt' := pt[l := Swapped(o)];
    forall g: nat
      ensures MapsOf(pt', g) == MapsOf(pt, g)
    {
      MapsAdded(pt, l, Swapped(o), g);
    }
    forall q: nat
      ensures HoldsOf(pt', q) == if q == o then HoldsOf(pt, q) + {l} else HoldsOf(pt, q)
      ensures |HoldsOf(pt', q)| == |HoldsOf(pt, q)| + if q == o then 1 else 0
    {
      HoldsAdded(pt, l, Swapped(o), q);
      SizeWith(HoldsOf(pt, q), l);
    }
  }

  /** An entry gets a swap entry, and swap_duplicate has counted it. */
  lemma {:induction false} AddSwapped(s: State, held: set<nat>, pin: Option<nat>, pend: Option<Loc>, l: Loc, o: nat)
    requires Inv(s, held, pin, pend) && l !in s.pt && l.space < MAX_SPACES
    requires 1 <= o < |s.mem_map| && 0 <= s.mem_map[o] < MAX_SWAP_REF
    requires Compatible(s.pt, s.swap, s.index, l, Swapped(o))
    ensures var s' := s.(pt := s.pt[l := Swapped(o)], mem_map := s.mem_map[o := s.mem_map[o] + 1]);
            && Inv(s', held, pin, pend)
            && View(s') == View(s)[l := ValOf(s.swap, s.index, s.cache, s.mem, s.disk, Swapped(o))]
  {
    hide PteOk, RefOk, UsedOk, SlotOk, CacheOk, HashOk, LruOk, CleanOk, PairOk, Compatible;
    AddHoldsCounts(s.pt, l, o, s.ref, s.swap, s.free, held, pin, s.mem_map, s.cache);
    AddClean(s.pt, l, Swapped(o), s.swap, s.index, s.dirty, s.mem, s.disk, pend);
    AddPair(s.pt, s.swap, s.index, l, Swapped(o));
    CountedPteOk(s.pt, |s.swap|, s.free, s.mem_map, o, 1);
    AddPteOk(s.pt, |s.swap|, s.free, s.mem_map[o := s.mem_map[o] + 1], l, Swapped(o));
  }

  lemma {:induction false} AddPteOk(pt: Table, n: nat, free: set<nat>, mem_map: seq<int>, l: Loc, p: Pte)
    requires PteOk(pt, n, free, mem_map) && l.space < MAX_SPACES && EntryOk(p, n, free, mem_map)
    ensures PteOk(pt[l := p], n, free, mem_map)
  {
  }

  lemma {:induction false} CountedPteOk(pt: Table, n: nat, free: set<nat>, mem_map: seq<int>, o: nat, d: int)
    requires PteOk(pt, n, free, mem_map) && o < |mem_map| && mem_map[o] + d != SWAP_UNUSED
    ensures PteOk(pt, n, free, mem_map[o := mem_map[o] + d])
  {
    forall k | k in pt
      ensures k.space < MAX_SPACES && EntryOk(pt[k], n, free, mem_map[o := mem_map[o] + d])
    {
      assert EntryOk(pt[k], n, free, mem_map);
    }
  }

  // ---------- an entry is removed ----------

  lemma {:induction false} DropPair(pt: Table, swap: seq<bool>, index: seq<nat>, l: Loc)
    requires PairOk(pt, swap, index)
    ensures PairOk(pt - {l}, swap, index)
  {
  }

  /** Without the entry its frame is no more dirty than by its flag. */
  lemma {:induction false} DropClean(pt: Table, l: Loc, swap: seq<bool>, index: seq<nat>, dirty: seq<bool>,
                                     dirty': seq<bool>, mem: seq<Content>, disk: seq<Content>, pend: Option<Loc>)
    requires CleanOk(pt, swap, index, dirty, mem, disk, pend) && l in pt && |dirty'| == |dirty| && pend != Some(l)
    requires forall f :: 0 <= f < |dirty| && dirty[f] ==> dirty'[f]
    requires pt[l].Present? && pt[l].d && pt[l].frame < |swap| && swap[pt[l].frame] ==> dirty'[pt[l].frame]
    ensures CleanOk(pt - {l}, swap, index, dirty', mem, disk, pend)
  {
    forall f: nat | f < |swap| && swap[f] && Dirty(pt, dirty, pend, f)
      ensures Dirty(pt - {l}, dirty', pend, f)
    {
      if !dirty[f] && !dirty'[f] {
        var k :| k in pt && Maps(pt[k], f) && (pt[k].d || pend == Some(k));
        assert k != l;
        assert (pt - {l})[k] == pt[k];
      }
    }
  }

  lemma {:induction false} DropPteOk(pt: Table, n: nat, free: set<nat>, mem_map: seq<int>, l: Loc)
    requires PteOk(pt, n, free, mem_map)
    ensures PteOk(pt - {l}, n, free, mem_map)
  {
  }

  /** The counts without an entry that maps `f`. */
  lemma {:induction false} DropMaps(pt: Table, l: Loc, f: nat)
    requires l in pt && Maps(pt[l], f)
    ensures forall g: nat :: MapsOf(pt - {l}, g) == if g == f then MapsOf(pt, g) - {l} else MapsOf(pt, g)
    ensures |MapsOf(pt - {l}, f)| == |MapsOf(pt, f)| - 1
    ensures forall o: nat :: HoldsOf(pt - {l}, o) == HoldsOf(pt, o)
  {
    forall g: nat
      ensures MapsOf(pt - {l}, g) == if g == f then MapsOf(pt, g) - {l} else MapsOf(pt, g)
    {
      MapsDropped(pt, l, g);
    }
    SizeWith(MapsOf(pt, f), l);
    forall o: nat
      ensures HoldsOf(pt - {l}, o) == HoldsOf(pt, o)
    {
      HoldsDropped(pt, l, o);
    }
  }

  lemma {:induction false} DropMapsRef(pt: Table, l: Loc, f: nat, ref: seq<int>, pin: Option<nat>)
    requires l in pt && Maps(pt[l], f) && f < |ref| && pin != Some(f) && RefOk(pt, ref, pin)
    ensures RefOk(pt - {l}, ref[f := ref[f] - 1], pin)
    ensures ref[f] == 1 <==> MapsOf(pt - {l}, f) == {}
  {
    hide MapsOf;
    DropMaps(pt, l, f);
    assert |MapsOf(pt - {l}, f)| == 0 <==> MapsOf(pt - {l}, f) == {};
  }

  lemma {:induction false} DropMapsUsed(pt: Table, l: Loc, f: nat, swap: seq<bool>, free: set<nat>, held: set<nat>,
                                        pin: Option<nat>)
    requires l in pt && Maps(pt[l], f) && f < |swap| && f !in free && pin != Some(f)
    requires UsedOk(pt, swap, free, held, pin)
    ensures UsedOk(pt - {l}, swap, free, if !swap[f] && MapsOf(pt - {l}, f) == {} then held + {f} else held, pin)
  {
    hide MapsOf;
    DropMaps(pt, l, f);
  }

  lemma {:induction false} DropMapsSlots(pt: Table, l: Loc, f: nat, mem_map: seq<int>, cache: map<nat, nat>)
    requires l in pt && Maps(pt[l], f) && SlotOk(pt, mem_map, cache)
    ensures SlotOk(pt - {l}, mem_map, cache)
  {
    hide HoldsOf;
    DropMaps(pt, l, f);
  }

  /** page_remove_pte of a present entry; a frame without a swap entry whose last reference goes is in hand then. */
  lemma {:induction false} DropPresent(s: State, held: set<nat>, pin: Option<nat>, pend: Option<Loc>, l: Loc,
                                       dirty': seq<bool>)
    requires Inv(s, held, pin, pend) && l in s.pt && s.pt[l].Present? && pin != Some(s.pt[l].frame) && pend != Some(l)
    requires |dirty'| == |s.dirty| && forall f :: 0 <= f < |s.dirty| && s.dirty[f] ==> dirty'[f]
    requires s.pt[l].d && s.pt[l].frame < |s.swap| && s.swap[s.pt[l].frame] ==> dirty'[s.pt[l].frame]
    ensures s.pt[l].frame < |s.ref|
    ensures var f := s.pt[l].frame; var s' := s.(pt := s.pt - {l}, ref := s.ref[f := s.ref[f] - 1], dirty := dirty');
            && Inv(s', if !s.swap[f] && s.ref[f] == 1 then held + {f} else held, pin, pend)
            && View(s') == View(s) - {l}
  {
    hide RefOk, UsedOk, SlotOk, CacheOk, HashOk, LruOk, CleanOk, PairOk;
    var f := s.pt[l].frame;
    assert EntryOk(s.pt[l], |s.swap|, s.free, s.mem_map);
    DropMapsRef(s.pt, l, f, s.ref, pin);
    DropMapsUsed(s.pt, l, f, s.swap, s.free, held, pin);
    DropMapsSlots(s.pt, l, f, s.mem_map, s.cache);
    DropClean(s.pt, l, s.swap, s.index, s.dirty, dirty', s.mem, s.disk, pend);
    DropPair(s.pt, s.swap, s.index, l);
    DropPteOk(s.pt, |s.swap|, s.free, s.mem_map, l);
  }

  lemma {:induction false} DropHoldsCounts(pt: Table, l: Loc, o: nat, ref: seq<int>, swap: seq<bool>, free: set<nat>,
                                           held: set<nat>, pin: Option<nat>, mem_map: seq<int>, cache: map<nat, nat>,
                                             n: int)
    requires l in pt && pt[l] == Swapped(o) && 1 <= o < |mem_map| && mem_map[o] <= MAX_SWAP_REF
    requires RefOk(pt, ref, pin) && UsedOk(pt, swap, free, held, pin) && SlotOk(pt, mem_map, cache)
    requires n == if mem_map[o] == 1 && o !in cache then SWAP_UNUSED else mem_map[o] - 1
    ensures var pt' := pt - {l};
            RefOk(pt', ref, pin) && UsedOk(pt', swap, free, held, pin) && SlotOk(pt', mem_map[o := n], cache)
  {
    var pt' := pt - {l};
    forall g: nat
      ensures MapsOf(pt', g) == MapsOf(pt, g)
    {
      MapsDropped(pt, l, g);
    }
    forall q: nat
      ensures HoldsOf(pt', q) == if q == o then HoldsOf(pt, q) - {l} else HoldsOf(pt, q)
      ensures |HoldsOf(pt', q)| == |HoldsOf(pt, q)| - if q == o then 1 else 0
    {
      HoldsDropped(pt, l, q);
      SizeWith(HoldsOf(pt, q), l);
    }
    assert |HoldsOf(pt', o)| == 0 ==> HoldsOf(pt', o) == {};
  }

  /** swap_remove_entry counts the entry down; without a frame and without references the slot becomes unused. */
  lemma {:induction false} DropSwapped(s: State, held: set<nat>, pin: Option<nat>, pend: Option<Loc>, l: Loc, o: nat,
                                       n: int)
    requires Inv(s, held, pin, pend) && l in s.pt && s.pt[l] == Swapped(o) && pend != Some(l)
    requires o < |s.mem_map| && n == if s.mem_map[o] == 1 && o !in s.cache then SWAP_UNUSED else s.mem_map[o] - 1
    ensures var s' := s.(pt := s.pt - {l}, mem_map := s.mem_map[o := n]);
            Inv(s', held, pin, pend) && View(s') == View(s) - {l}
  {
    hide RefOk, UsedOk, SlotOk, CacheOk, HashOk, LruOk, CleanOk, PairOk, PteOk, HoldsOf;
    SlotBound(s, held, pin, pend, l, o);
    DropHoldsCounts(s.pt, l, o, s.ref, s.swap, s.free, held, pin, s.mem_map, s.cache, n);
    DropClean(s.pt, l, s.swap, s.index, s.dirty, s.dirty, s.mem, s.disk, pend);
    DropPair(s.pt, s.swap, s.index, l);
    DropPteOk(s.pt, |s.swap|, s.free, s.mem_map, l);
    SlotPteOk(s.pt - {l}, |s.swap|, s.free, s.mem_map, s.cache, o, n);
  }

  /** An unused slot is held by no entry. */
  lemma {:induction false} SlotPteOk(pt: Table, n: nat, free: set<nat>, mem_map: seq<int>, cache: map<nat, nat>, o: nat,
                                     c: int)
    requires PteOk(pt, n, free, mem_map) && o < |mem_map| && SlotOk(pt, mem_map[o := c], cache)
    ensures PteOk(pt, n, free, mem_map[o := c])
  {
    forall k | k in pt
      ensures k.space < MAX_SPACES && EntryOk(pt[k], n, free, mem_map[o := c])
    {
      assert EntryOk(pt[k], n, free, mem_map);
      if pt[k] == Swapped(o) {
        assert k in HoldsOf(pt, o);
      }
    }
  }

  /**
   A slot in use has a count, which is far from the limits: the assertions of swap_duplicate and swap_remove_entry hold.
   */
  lemma {:induction false} SlotBound(s: State, held: set<nat>, pin: Option<nat>, pend: Option<Loc>, l: Loc, o: nat)
    requires Inv(s, held, pin, pend) && l in s.pt && ObjOf(s.swap, s.index, s.pt[l]) == Slot(o)
    ensures 1 <= o < |s.mem_map| && 0 <= s.mem_map[o] <= MAX_SPACES < MAX_SWAP_REF
    ensures s.pt[l] == Swapped(o) ==> s.mem_map[o] >= 1
  {
    assert EntryOk(s.pt[l], |s.swap|, s.free, s.mem_map);
    forall k | k in HoldsOf(s.pt, o)
      ensures k.va == l.va && k.space < MAX_SPACES
    {
      assert ObjOf(s.swap, s.index, s.pt[k]) == Slot(o);
    }
    FewSpaces(HoldsOf(s.pt, o), l.va, MAX_SPACES);
    if s.pt[l] == Swapped(o) {
      assert l in HoldsOf(s.pt, o);
    }
  }

  // ---------- frames lose and get swap entries ----------

  lemma {:induction false} HashRemoved(swap: seq<bool>, index: seq<nat>, hash: seq<seq<nat>>, f: nat)
    requires HashOk(swap, index, hash) && f < |swap| && swap[f]
    ensures var i := Hash(index[f]);
            i < |hash| && f in hash[i] && HashOk(swap[f := false], index, hash[i := Del(hash[i], f)])
  {
    var i := Hash(index[f]);
    assert f in hash[i];
    DelIs(hash[i], f);
    var hash' := hash[i := Del(hash[i], f)];
    forall j, g: nat | 0 <= j < |hash|
      ensures g in hash'[j] <==> g < |swap| && swap[f := false][g] && Hash(index[g]) == j
    {
      assert g in hash[j] <==> g < |swap| && swap[g] && Hash(index[g]) == j;
    }
  }

  lemma {:induction false} HashAdded(swap: seq<bool>, index: seq<nat>, hash: seq<seq<nat>>, f: nat, o: nat)
    requires HashOk(swap, index, hash) && f < |swap| && !swap[f]
    ensures var i := Hash(o);
            i < |hash| && HashOk(swap[f := true], index[f := o], hash[i := [f] + hash[i]])
  {
    var i := Hash(o);
    assert f !in hash[i];
    var hash' := hash[i := [f] + hash[i]];
    forall j, g: nat | 0 <= j < |hash|
      ensures g in hash'[j] <==> g < |swap| && swap[f := true][g] && Hash(index[f := o][g]) == j
    {
      assert g in hash[j] <==> g < |swap| && swap[g] && Hash(index[g]) == j;
    }
  }

  /** swap_list_del. */
  function LruDel(list: seq<nat>, f: nat, member: bool): seq<nat> {
    if member && f in list then Del(list, f) else list
  }

  lemma {:induction false} LruRemoved(swap: seq<bool>, act: seq<bool>, active: seq<nat>, inactive: seq<nat>, f: nat)
    requires LruOk(swap, act, active, inactive) && f < |swap| && swap[f]
    ensures f in (if act[f] then active else inactive)
    ensures LruOk(swap[f := false], act, LruDel(active, f, act[f]), LruDel(inactive, f, !act[f]))
  {
    if act[f] {
      DelIs(active, f);
    } else {
      DelIs(inactive, f);
    }
  }

  lemma {:induction false} LruAdded(swap: seq<bool>, act: seq<bool>, active: seq<nat>, inactive: seq<nat>, f: nat)
    requires LruOk(swap, act, active, inactive) && f < |swap| && !swap[f]
    ensures LruOk(swap[f := true], act[f := true], active + [f], inactive)
  {
  }

  /** When the entries that stand for a frame are renamed, which entries stand for the same page does not change. */
  lemma {:induction false} RenamedPair(pt: Table, swap: seq<bool>, index: seq<nat>, swap': seq<bool>, index': seq<nat>)
    requires PairOk(pt, swap, index)
    requires forall l, k :: l in pt && k in pt && ObjOf(swap', index', pt[l]) == ObjOf(swap', index', pt[k]) ==>
               ObjOf(swap, index, pt[l]) == ObjOf(swap, index, pt[k])
    ensures PairOk(pt, swap', index')
  {
  }

  lemma {:induction false} UncachePair(pt: Table, swap: seq<bool>, index: seq<nat>, cache: map<nat, nat>, slots: nat,
                                       f: nat)
    requires PairOk(pt, swap, index) && CacheOk(swap, index, cache, slots) && f < |swap| && swap[f]
    requires HoldsOf(pt, index[f]) == {} || MapsOf(pt, f) == {}
    ensures PairOk(pt, swap[f := false], index)
  {
    var swap', o := swap[f := false], index[f];
    forall l, k | l in pt && k in pt && ObjOf(swap', index, pt[l]) == ObjOf(swap', index, pt[k])
      ensures ObjOf(swap, index, pt[l]) == ObjOf(swap, index, pt[k])
    {
      assert l in HoldsOf(pt, o) <==> Holds(pt[l], o);
      assert k in HoldsOf(pt, o) <==> Holds(pt[k], o);
      assert l in MapsOf(pt, f) <==> Maps(pt[l], f);
      assert k in MapsOf(pt, f) <==> Maps(pt[k], f);
    }
    RenamedPair(pt, swap, index, swap', index);
  }

  lemma {:induction false} CachePair(pt: Table, swap: seq<bool>, index: seq<nat>, cache: map<nat, nat>, slots: nat,
                                     f: nat, o: nat)
    requires PairOk(pt, swap, index) && CacheOk(swap, index, cache, slots) && f < |swap| && !swap[f] && o !in cache
    requires HoldsOf(pt, o) == {} || MapsOf(pt, f) == {}
    ensures PairOk(pt, swap[f := true], index[f := o])
  {
    var swap', index' := swap[f := true], index[f := o];
    forall l, k | l in pt && k in pt && ObjOf(swap', index', pt[l]) == ObjOf(swap', index', pt[k])
      ensures ObjOf(swap, index, pt[l]) == ObjOf(swap, index, pt[k])
    {
      assert l in HoldsOf(pt, o) <==> Holds(pt[l], o);
      assert k in HoldsOf(pt, o) <==> Holds(pt[k], o);
      assert l in MapsOf(pt, f) <==> Maps(pt[l], f);
      assert k in MapsOf(pt, f) <==> Maps(pt[k], f);
    }
    RenamedPair(pt, swap, index, swap', index');
  }

  /** The state after a frame has lost its swap entry; `n` is the new count of the slot. */
  ghost function Uncached(s: State, f: nat, n: int): State
    requires Sizes(s) && f < |s.swap| && |s.hash| == HASH_LIST_SIZE && s.index[f] < |s.mem_map|
  {
    var o := s.index[f];
    var i := Hash(o);
    s.(swap := s.swap[f := false], cache := s.cache - {o}, mem_map := s.mem_map[o := n],
       hash := s.hash[i := if f in s.hash[i] then Del(s.hash[i], f) else s.hash[i]],
       active := LruDel(s.active, f, s.act[f]), inactive := LruDel(s.inactive, f, !s.act[f]))
  }

  /** Either the slot has no entries and becomes unused, or the frame has none and is clean. */
  ghost predicate MayUncache(s: State, pin: Option<nat>, f: nat, n: int) {
    && f < |s.swap| && f < |s.dirty| && f < |s.index| && s.swap[f] && s.index[f] < |s.mem_map|
    && (if s.mem_map[s.index[f]] == 0 then n == SWAP_UNUSED
        else n == s.mem_map[s.index[f]] && MapsOf(s.pt, f) == {} && !s.dirty[f])
  }

  lemma {:induction false} UncacheUsed(pt: Table, swap: seq<bool>, free: set<nat>, held: set<nat>, pin: Option<nat>,
                                       f: nat)
    requires UsedOk(pt, swap, free, held, pin) && f < |swap| && swap[f]
    ensures UsedOk(pt, swap[f := false], free, if MapsOf(pt, f) == {} && pin != Some(f) then held + {f} else held, pin)
  {
  }

  lemma {:induction false} UncacheClean(pt: Table, swap: seq<bool>, index: seq<nat>, dirty: seq<bool>,
                                        mem: seq<Content>, disk: seq<Content>, pend: Option<Loc>, f: nat)
    requires CleanOk(pt, swap, index, dirty, mem, disk, pend) && f < |swap|
    ensures CleanOk(pt, swap[f := false], index, dirty, mem, disk, pend)
  {
  }

  lemma {:induction false} UncacheSlots(pt: Table, mem_map: seq<int>, cache: map<nat, nat>, swap: seq<bool>,
                                        index: seq<nat>, f: nat, n: int)
    requires SlotOk(pt, mem_map, cache) && CacheOk(swap, index, cache, |mem_map|) && f < |swap| && swap[f]
    requires index[f] < |mem_map|
    requires if mem_map[index[f]] == 0 then n == SWAP_UNUSED else n == mem_map[index[f]]
    ensures SlotOk(pt, mem_map[index[f] := n], cache - {index[f]})
    ensures CacheOk(swap[f := false], index, cache - {index[f]}, |mem_map|)
    ensures n == SWAP_UNUSED ==> HoldsOf(pt, index[f]) == {} && mem_map[index[f]] == 0
  {
    var o := index[f];
    assert o in cache && cache[o] == f;
    assert mem_map[o] != SWAP_UNUSED;
    if mem_map[o] == 0 {
      assert HoldsOf(pt, o) == {};
    }
  }

  lemma {:induction false} UncacheView(s: State, pend: Option<Loc>, pin: Option<nat>, f: nat, n: int)
    requires Sizes(s) && CacheOk(s.swap, s.index, s.cache, |s.mem_map|)
    requires CleanOk(s.pt, s.swap, s.index, s.dirty, s.mem, s.disk, pend)
    requires MayUncache(s, pin, f, n) && |s.hash| == HASH_LIST_SIZE
    requires n == SWAP_UNUSED ==> HoldsOf(s.pt, s.index[f]) == {}
    requires n == SWAP_UNUSED ==> s.mem_map[s.index[f]] == 0
    ensures View(Uncached(s, f, n)) == View(s)
  {
    var s', o := Uncached(s, f, n), s.index[f];
    assert o in s.cache && s.cache[o] == f;
    forall l | l in s.pt
      ensures ValOf(s'.swap, s'.index, s'.cache, s'.mem, s'.disk, s.pt[l])
              == ValOf(s.swap, s.index, s.cache, s.mem, s.disk, s.pt[l])
    {
      if s.pt[l] == Swapped(o) {
        assert l in HoldsOf(s.pt, o);
        assert !Dirty(s.pt, s.dirty, pend, f) by {
          assert forall k :: k in s.pt && Maps(s.pt[k], f) ==> k in MapsOf(s.pt, f);
        }
      }
    }
  }

  /** swap_list_del and swap_page_del: the frame is out of the lists, and its slot is unused or only on disk. */
  lemma {:induction false} Uncache(s: State, held: set<nat>, pin: Option<nat>, pend: Option<Loc>, f: nat, n: int)
    requires Inv(s, held, pin, pend) && MayUncache(s, pin, f, n)
    ensures |s.hash| == HASH_LIST_SIZE && f in s.hash[Hash(s.index[f])]
    ensures (f in if s.act[f] then s.active else s.inactive)
    ensures Inv(Uncached(s, f, n), if MapsOf(s.pt, f) == {} && pin != Some(f) then held + {f} else held, pin, pend)
    ensures View(Uncached(s, f, n)) == View(s)
    ensures s.index[f] in s.cache && s.cache[s.index[f]] == f
  {
    hide RefOk, UsedOk, SlotOk, HashOk, LruOk, CleanOk, PairOk, PteOk, Hash, Del;
    UncacheUsed(s.pt, s.swap, s.free, held, pin, f);
    UncacheSlots(s.pt, s.mem_map, s.cache, s.swap, s.index, f, n);
    HashRemoved(s.swap, s.index, s.hash, f);
    LruRemoved(s.swap, s.act, s.active, s.inactive, f);
    UncacheClean(s.pt, s.swap, s.index, s.dirty, s.mem, s.disk, pend, f);
    UncachePair(s.pt, s.swap, s.index, s.cache, |s.mem_map|, f);
    SlotPteOk(s.pt, |s.swap|, s.free, s.mem_map, s.cache - {s.index[f]}, s.index[f], n);
    UncacheView(s, pend, pin, f, n);
  }

  /** The state after a frame has got a swap entry, and has joined the active list. */
  ghost function Cached(s: State, f: nat, o: nat, fresh_slot: bool): State
    requires Sizes(s) && f < |s.swap| && o < |s.mem_map|
  {
    var i := Hash(o);
    s.(swap := s.swap[f := true], index := s.index[f := o], cache := s.cache[o := f],
       hash := s.hash[i := [f] + s.hash[i]],
       mem_map := if fresh_slot then s.mem_map[o := 0] else s.mem_map,
         dirty := if fresh_slot then s.dirty[f := true] else s.dirty,
       act := s.act[f := true], active := s.active + [f])
  }

  /** Either the slot is unused, or it has entries, and the frame has none and holds what is on disk. */
  ghost predicate MayCache(s: State, f: nat, o: nat, fresh_slot: bool)
    requires Sizes(s)
  {
    && f < |s.swap| && !s.swap[f] && f !in s.free && 1 <= o < |s.mem_map|
    && (if fresh_slot then s.mem_map[o] == SWAP_UNUSED
        else s.mem_map[o] != SWAP_UNUSED && o !in s.cache && MapsOf(s.pt, f) == {} && s.mem[f] == s.disk[o])
  }

  lemma {:induction false} CacheUsed(pt: Table, swap: seq<bool>, free: set<nat>, held: set<nat>, pin: Option<nat>,
                                     f: nat)
    requires UsedOk(pt, swap, free, held, pin) && f < |swap| && f !in free
    ensures UsedOk(pt, swap[f := true], free, held - {f}, pin)
  {
  }

  lemma {:induction false} CacheSlots(pt: Table, mem_map: seq<int>, cache: map<nat, nat>, swap: seq<bool>,
                                      index: seq<nat>, f: nat, o: nat, fresh_slot: bool)
    requires SlotOk(pt, mem_map, cache) && CacheOk(swap, index, cache, |mem_map|) && f < |swap| && !swap[f]
    requires 1 <= o < |mem_map|
    requires if fresh_slot then mem_map[o] == SWAP_UNUSED else mem_map[o] != SWAP_UNUSED && o !in cache
    ensures o !in cache && (fresh_slot ==> HoldsOf(pt, o) == {})
    ensures SlotOk(pt, if fresh_slot then mem_map[o := 0] else mem_map, cache[o := f])
    ensures CacheOk(swap[f := true], index[f := o], cache[o := f], |mem_map|)
  {
    assert mem_map[o] == SWAP_UNUSED ==> HoldsOf(pt, o) == {} && o !in cache;
    if fresh_slot {
      assert |HoldsOf(pt, o)| == 0;
    }
  }

  lemma {:induction false} CacheClean(pt: Table, swap: seq<bool>, index: seq<nat>, dirty: seq<bool>, dirty': seq<bool>,
                                      mem: seq<Content>, disk: seq<Content>, pend: Option<Loc>, f: nat, o: nat)
    requires CleanOk(pt, swap, index, dirty, mem, disk, pend) && f < |swap| && o < |disk|
    requires dirty' == dirty[f := true] || (dirty' == dirty && mem[f] == disk[o])
    ensures CleanOk(pt, swap[f := true], index[f := o], dirty', mem, disk, pend)
  {
    forall g: nat | g < |swap| && Dirty(pt, dirty, pend, g)
      ensures Dirty(pt, dirty', pend, g)
    {
    }
  }

  lemma {:induction false} CacheView(s: State, f: nat, o: nat, fresh_slot: bool)
    requires Sizes(s) && CacheOk(s.swap, s.index, s.cache, |s.mem_map|) && MayCache(s, f, o, fresh_slot)
    requires o !in s.cache
    requires fresh_slot ==> HoldsOf(s.pt, o) == {}
    ensures View(Cached(s, f, o, fresh_slot)) == View(s)
  {
    var s' := Cached(s, f, o, fresh_slot);
    forall l | l in s.pt
      ensures ValOf(s'.swap, s'.index, s'.cache, s'.mem, s'.disk, s.pt[l])
              == ValOf(s.swap, s.index, s.cache, s.mem, s.disk, s.pt[l])
    {
      assert l in HoldsOf(s.pt, o) <==> s.pt[l] == Swapped(o);
    }
  }

  /** swap_page_add and swap_active_list_add. */
  lemma {:induction false} Cache(s: State, held: set<nat>, pin: Option<nat>, pend: Option<Loc>, f: nat, o: nat,
                                 fresh_slot: bool)
    requires Inv(s, held, pin, pend) && MayCache(s, f, o, fresh_slot)
    ensures Inv(Cached(s, f, o, fresh_slot), held - {f}, pin, pend) && View(Cached(s, f, o, fresh_slot)) == View(s)
  {
    hide RefOk, UsedOk, SlotOk, HashOk, LruOk, CleanOk, PairOk, PteOk, Hash, CacheOk;
    CacheUsed(s.pt, s.swap, s.free, held, pin, f);
    CacheSlots(s.pt, s.mem_map, s.cache, s.swap, s.index, f, o, fresh_slot);
    HashAdded(s.swap, s.index, s.hash, f, o);
    LruAdded(s.swap, s.act, s.active, s.inactive, f);
    CacheClean(s.pt, s.swap, s.index, s.dirty, if fresh_slot then s.dirty[f := true] else s.dirty, s.mem, s.disk, pend,
               f, o);
    CachePair(s.pt, s.swap, s.index, s.cache, |s.mem_map|, f, o);
    if fresh_slot {
      SlotPteOk(s.pt, |s.swap|, s.free, s.mem_map, s.cache[o := f], o, 0);
    }
    CacheView(s, f, o, fresh_slot);
  }

  // ---------- frames are taken and given back, lists and flags ----------

  /** alloc_page: a free frame is in hand. */
  lemma {:induction false} Take(s: State, held: set<nat>, pin: Option<nat>, pend: Option<Loc>, f: nat)
    requires Inv(s, held, pin, pend) && f in s.free
    ensures f < |s.swap| && !s.swap[f] && MapsOf(s.pt, f) == {} && s.ref[f] == 0 && f !in held
    ensures Inv(s.(free := s.free - {f}), held + {f}, pin, pend) && View(s.(free := s.free - {f})) == View(s)
  {
    hide SlotOk, HashOk, LruOk, CleanOk, PairOk, CacheOk;
    assert MapsOf(s.pt, f) == {} by {
      forall l | l in s.pt
        ensures !Maps(s.pt[l], f)
      {
        assert EntryOk(s.pt[l], |s.swap|, s.free, s.mem_map);
      }
    }
    forall l | l in s.pt
      ensures l.space < MAX_SPACES && EntryOk(s.pt[l], |s.swap|, s.free - {f}, s.mem_map)
    {
      assert EntryOk(s.pt[l], |s.swap|, s.free, s.mem_map);
    }
  }

  /** free_page: a frame in hand becomes free; its flags are cleared. */
  lemma {:induction false} Give(s: State, held: set<nat>, pin: Option<nat>, pend: Option<Loc>, f: nat)
    requires Inv(s, held, pin, pend) && f in held && pin != Some(f)
    ensures f < |s.swap| && !s.swap[f] && s.ref[f] == 0
    ensures var s' := s.(free := s.free + {f}, dirty := s.dirty[f := false], act := s.act[f := false]);
            Inv(s', held - {f}, pin, pend) && View(s') == View(s)
  {
    hide SlotOk, HashOk, PairOk, CacheOk;
    var s' := s.(free := s.free + {f}, dirty := s.dirty[f := false], act := s.act[f := false]);
    assert MapsOf(s.pt, f) == {};
    forall l | l in s.pt
      ensures l.space < MAX_SPACES && EntryOk(s.pt[l], |s.swap|, s'.free, s.mem_map)
    {
      assert EntryOk(s.pt[l], |s.swap|, s.free, s.mem_map);
      assert Maps(s.pt[l], f) ==> l in MapsOf(s.pt, f);
    }
    forall g: nat | g < |s.swap| && g != f && Dirty(s.pt, s.dirty, pend, g)
      ensures Dirty(s.pt, s'.dirty, pend, g)
    {
    }
  }

  lemma {:induction false} LruAddedInactive(swap: seq<bool>, act: seq<bool>, active: seq<nat>, inactive: seq<nat>,
                                            f: nat)
    requires LruOk(swap, act, active, inactive) && f < |swap| && !swap[f]
    ensures LruOk(swap[f := true], act[f := false], active, inactive + [f])
  {
  }

  /** swap_list_del and an addition at the end of the list that `to` says. */
  ghost function Moved(s: State, f: nat, to: bool): State
    requires f < |s.act|
  {
    var active, inactive := LruDel(s.active, f, s.act[f]), LruDel(s.inactive, f, !s.act[f]);
    s.(act := s.act[f := to], active := if to then active + [f] else active,
       inactive := if to then inactive else inactive + [f])
  }

  lemma {:induction false} Move(s: State, held: set<nat>, pin: Option<nat>, pend: Option<Loc>, f: nat, to: bool)
    requires Inv(s, held, pin, pend) && f < |s.swap| && s.swap[f]
    ensures f in (if s.act[f] then s.active else s.inactive)
    ensures Inv(Moved(s, f, to), held, pin, pend) && View(Moved(s, f, to)) == View(s)
  {
    hide RefOk, UsedOk, SlotOk, HashOk, CleanOk, PairOk, PteOk, CacheOk, LruOk;
    LruRemoved(s.swap, s.act, s.active, s.inactive, f);
    var swap', active, inactive := s.swap[f := false], LruDel(s.active, f, s.act[f]), LruDel(s.inactive, f, !s.act[f]);
    if to {
      LruAdded(swap', s.act, active, inactive, f);
    } else {
      LruAddedInactive(swap', s.act, active, inactive, f);
    }
    assert swap'[f := true] == s.swap;
  }

  /** SetPageDirty. */
  lemma {:induction false} MarkDirty(s: State, held: set<nat>, pin: Option<nat>, pend: Option<Loc>, f: nat)
    requires Inv(s, held, pin, pend) && f < |s.dirty|
    ensures var s' := s.(dirty := s.dirty[f := true]);
            Inv(s', held, pin, pend) && View(s') == View(s)
  {
    hide RefOk, UsedOk, SlotOk, HashOk, PairOk, PteOk, CacheOk, LruOk;
    forall g: nat | g < |s.swap| && Dirty(s.pt, s.dirty, pend, g)
      ensures Dirty(s.pt, s.dirty[f := true], pend, g)
    {
    }
  }

  /** ClearPageDirty and swapfs_write: the frame's contents are on disk. */
  lemma {:induction false} WriteOut(s: State, held: set<nat>, pin: Option<nat>, pend: Option<Loc>, f: nat)
    requires Inv(s, held, pin, pend) && f < |s.swap| && s.swap[f]
    ensures s.index[f] < |s.disk|
    ensures var s' := s.(dirty := s.dirty[f := false], disk := s.disk[s.index[f] := s.mem[f]]);
            Inv(s', held, pin, pend) && View(s') == View(s)
  {
    hide RefOk, UsedOk, SlotOk, HashOk, PairOk, PteOk, LruOk;
    var o := s.index[f];
    assert o in s.cache && s.cache[o] == f;
    var s' := s.(dirty := s.dirty[f := false], disk := s.disk[o := s.mem[f]]);
    forall g: nat | g < |s.swap| && s.swap[g] && s.index[g] < |s.disk| && s.mem[g] != s'.disk[s.index[g]]
      ensures Dirty(s.pt, s'.dirty, pend, g)
    {
      assert s.cache[s.index[g]] == g;
      assert g != f && s.index[g] != o;
      assert Dirty(s.pt, s.dirty, pend, g);
    }
  }

  /** The contents of a frame that nobody has mapped, and that has no swap entry. */
  lemma {:induction false} Fill(s: State, held: set<nat>, pin: Option<nat>, pend: Option<Loc>, f: nat, c: Content)
    requires Inv(s, held, pin, pend) && f < |s.swap| && !s.swap[f] && MapsOf(s.pt, f) == {}
    ensures Inv(s.(mem := s.mem[f := c]), held, pin, pend) && View(s.(mem := s.mem[f := c])) == View(s)
  {
    hide RefOk, UsedOk, SlotOk, HashOk, PairOk, PteOk, LruOk;
    var s' := s.(mem := s.mem[f := c]);
    forall l | l in s.pt
      ensures ValOf(s'.swap, s'.index, s'.cache, s'.mem, s'.disk, s.pt[l])
              == ValOf(s.swap, s.index, s.cache, s.mem, s.disk, s.pt[l])
    {
      assert Maps(s.pt[l], f) ==> l in MapsOf(s.pt, f);
    }
  }

  // ---------- the bits of an entry, and stores ----------

  lemma {:induction false} SameCounts(pt: Table, l: Loc, p: Pte, ref: seq<int>, swap: seq<bool>, free: set<nat>,
                                      held: set<nat>, pin: Option<nat>, mem_map: seq<int>, cache: map<nat, nat>)
    requires l in pt && pt[l].Present? && p.Present? && pt[l].frame == p.frame
    requires RefOk(pt, ref, pin) && UsedOk(pt, swap, free, held, pin) && SlotOk(pt, mem_map, cache)
    ensures RefOk(pt[l := p], ref, pin) && UsedOk(pt[l := p], swap, free, held, pin)
    ensures SlotOk(pt[l := p], mem_map, cache)
  {
    forall g: nat
      ensures MapsOf(pt[l := p], g) == MapsOf(pt, g) && HoldsOf(pt[l := p], g) == HoldsOf(pt, g)
    {
    }
  }

  /** No other entry stands for the same page as the one at `l`. */
  ghost predicate Alone(pt: Table, swap: seq<bool>, index: seq<nat>, l: Loc) {
    l in pt && forall k :: k in pt && k != l ==> ObjOf(swap, index, pt[k]) != ObjOf(swap, index, pt[l])
  }

  lemma {:induction false} BitsPair(pt: Table, swap: seq<bool>, index: seq<nat>, l: Loc, p: Pte)
    requires PairOk(pt, swap, index) && l in pt && pt[l].Present? && p.Present? && pt[l].frame == p.frame
    requires p.w && !pt[l].w ==> Alone(pt, swap, index, l)
    ensures PairOk(pt[l := p], swap, index)
  {
    var pt' := pt[l := p];
    forall j, k | j in pt' && k in pt' && j != k && ObjOf(swap, index, pt'[j]) == ObjOf(swap, index, pt'[k])
      ensures j.va == k.va && !Writable(pt'[j]) && !Writable(pt'[k])
    {
      assert ObjOf(swap, index, pt[j]) == ObjOf(swap, index, pt'[j]);
      assert ObjOf(swap, index, pt[k]) == ObjOf(swap, index, pt'[k]);
    }
  }

  /** The entry is dirty, or its frame is, if it was before. */
  lemma {:induction false} BitsClean(pt: Table, l: Loc, p: Pte, swap: seq<bool>, index: seq<nat>, dirty: seq<bool>,
                                     mem: seq<Content>, disk: seq<Content>, pend: Option<Loc>, pend': Option<Loc>)
    requires CleanOk(pt, swap, index, dirty, mem, disk, pend) && l in pt && pt[l].Present? && p.Present?
    requires pt[l].frame == p.frame
    requires pend == pend' || (pend in {None, Some(l)} && pend' in {None, Some(l)})
    requires pt[l].d || pend == Some(l) ==> p.d || pend' == Some(l)
    ensures CleanOk(pt[l := p], swap, index, dirty, mem, disk, pend')
  {
    forall f: nat | f < |swap| && Dirty(pt, dirty, pend, f)
      ensures Dirty(pt[l := p], dirty, pend', f)
    {
      if !dirty[f] {
        var k :| k in pt && Maps(pt[k], f) && (pt[k].d || pend == Some(k));
        assert Maps(pt[l := p][k], f);
      }
    }
  }

  /** Bits of an entry change; PTE_W may be set when the entry is alone, PTE_D may go only when a store is to come. */
  lemma {:induction false} SetBits(s: State, held: set<nat>, pin: Option<nat>, pend: Option<Loc>, pend': Option<Loc>,
                                   l: Loc, p: Pte)
    requires Inv(s, held, pin, pend) && l in s.pt && s.pt[l].Present? && p.Present? && s.pt[l].frame == p.frame
    requires p.w && !s.pt[l].w ==> Alone(s.pt, s.swap, s.index, l)
    requires pend == pend' || (pend in {None, Some(l)} && pend' in {None, Some(l)})
    requires s.pt[l].d || pend == Some(l) ==> p.d || pend' == Some(l)
    ensures Inv(s.(pt := s.pt[l := p]), held, pin, pend') && View(s.(pt := s.pt[l := p])) == View(s)
  {
    hide RefOk, UsedOk, SlotOk, HashOk, LruOk, CleanOk, PairOk, CacheOk, Alone;
    SameCounts(s.pt, l, p, s.ref, s.swap, s.free, held, pin, s.mem_map, s.cache);
    BitsPair(s.pt, s.swap, s.index, l, p);
    BitsClean(s.pt, l, p, s.swap, s.index, s.dirty, s.mem, s.disk, pend, pend');
    assert EntryOk(s.pt[l], |s.swap|, s.free, s.mem_map);
  }

  lemma {:induction false} StoreClean(pt: Table, swap: seq<bool>, index: seq<nat>, dirty: seq<bool>, mem: seq<Content>,
                                      disk: seq<Content>, l: Loc, c: Content)
    requires CleanOk(pt, swap, index, dirty, mem, disk, None) && l in pt && pt[l].Present? && pt[l].d
    requires pt[l].frame < |mem|
    ensures CleanOk(pt, swap, index, dirty, mem[pt[l].frame := c], disk, None)
  {
    var f := pt[l].frame;
    forall g: nat | g < |swap| && swap[g] && index[g] < |disk| && mem[f := c][g] != disk[index[g]]
      ensures Dirty(pt, dirty, None, g)
    {
      assert g == f ==> Maps(pt[l], f) && pt[l].d;
    }
  }

  /** The other entries stand for other pages. */
  lemma {:induction false} StoreView(s: State, l: Loc, f: nat, c: Content)
    requires Sizes(s) && CacheOk(s.swap, s.index, s.cache, |s.mem_map|) && PairOk(s.pt, s.swap, s.index)
    requires l in s.pt && Writable(s.pt[l]) && s.pt[l].frame == f < |s.mem|
    ensures View(s.(mem := s.mem[f := c])) == View(s)[l := c]
  {
    var mem' := s.mem[f := c];
    forall k | k in s.pt && k != l
      ensures ValOf(s.swap, s.index, s.cache, mem', s.disk, s.pt[k])
              == ValOf(s.swap, s.index, s.cache, s.mem, s.disk, s.pt[k])
    {
      assert ObjOf(s.swap, s.index, s.pt[k]) != ObjOf(s.swap, s.index, s.pt[l]);
      assert forall o :: o in s.cache && s.cache[o] == f ==> s.swap[f] && s.index[f] == o;
    }
  }

  /** A store through a writable entry: it changes the memory of its address space at its page, and nothing else. */
  lemma {:induction false} Store(s: State, held: set<nat>, pend: Option<Loc>, l: Loc, c: Content)
    requires Inv(s, held, None, pend) && pend in {None, Some(l)} && l in s.pt && Writable(s.pt[l])
    ensures s.pt[l].frame < |s.mem|
    ensures var f := s.pt[l].frame; var s' := s.(pt := s.pt[l := Present(f, true, true, true)], mem := s.mem[f := c]);
            Inv(s', held, None, None) && View(s') == View(s)[l := c]
  {
    hide RefOk, UsedOk, SlotOk, HashOk, LruOk, CleanOk, PairOk, CacheOk, ValOf, View;
    var f := s.pt[l].frame;
    var p := Present(f, true, true, true);
    assert EntryOk(s.pt[l], |s.swap|, s.free, s.mem_map);
    SetBits(s, held, None, pend, None, l, p);
    var s1 := s.(pt := s.pt[l := p]);
    StoreClean(s1.pt, s.swap, s.index, s.dirty, s.mem, s.disk, l, c);
    StoreView(s1, l, f, c);
  }

  /** page_ref and swap_page_count add up to 1 just when nobody else has the page: the test for copy-on-write. */
  lemma {:induction false} OneUser(s: State, held: set<nat>, pend: Option<Loc>, l: Loc, f: nat)
    requires Inv(s, held, None, pend) && l in s.pt && f < |s.ref|
    requires ObjOf(s.swap, s.index, s.pt[l]) == ObjOf(s.swap, s.index, Present(f, false, false, false))
    requires s.swap[f] ==> s.index[f] < |s.mem_map|
    ensures s.ref[f] + (if s.swap[f] then s.mem_map[s.index[f]] else 0) >= 1
    ensures s.ref[f] + (if s.swap[f] then s.mem_map[s.index[f]] else 0) == 1 <==> Alone(s.pt, s.swap, s.index, l)
  {
    hide UsedOk, HashOk, LruOk, CleanOk, PairOk, PteOk;
    var ms, hs := MapsOf(s.pt, f), if s.swap[f] then HoldsOf(s.pt, s.index[f]) else {};
    UsersAre(s.pt, s.swap, s.index, f);
    if s.swap[f] {
      assert s.cache[s.index[f]] == f;
    }
    assert |ms + hs| == |ms| + |hs| by {
      assert ms !! hs;
    }
    assert l in ms + hs;
    if Alone(s.pt, s.swap, s.index, l) {
      assert ms + hs == {l};
    }
    if |ms + hs| == 1 {
      forall k | k in s.pt && k != l
        ensures ObjOf(s.swap, s.index, s.pt[k]) != ObjOf(s.swap, s.index, s.pt[l])
      {
        Only(ms + hs, l, k);
      }
    }
  }

  lemma {:induction false} Only<T>(s: set<T>, x: T, y: T)
    requires |s| == 1 && x in s && y != x
    ensures y !in s
  {
    assert |s - {x}| == 0;
    assert s <= {x} + (s - {x});
  }

  lemma {:induction false} UsersAre(pt: Table, swap: seq<bool>, index: seq<nat>, f: nat)
    requires f < |swap| == |index|
    ensures forall k :: k in pt && ObjOf(swap, index, pt[k]) == ObjOf(swap, index, Present(f, false, false, false)) ==>
              k in MapsOf(pt, f) || (swap[f] && (k in HoldsOf(pt, index[f]) || SharesSlot(pt, swap, index, k, f)))
    ensures forall k :: k in MapsOf(pt, f) ==>
        k in pt && ObjOf(swap, index, pt[k]) == ObjOf(swap, index, Present(f, false, false, false))
    ensures swap[f] ==> forall k :: k in HoldsOf(pt, index[f]) ==>
        k in pt && ObjOf(swap, index, pt[k]) == Slot(index[f])
  {
  }

  /** Another frame with the same slot, which there is not. */
  ghost predicate SharesSlot(pt: Table, swap: seq<bool>, index: seq<nat>, k: Loc, f: nat)
    requires f < |swap| == |index| && k in pt
  {
    pt[k].Present? && pt[k].frame != f && pt[k].frame < |swap| && swap[pt[k].frame] && index[pt[k].frame] == index[f]
  }

  /** page_ref_inc of page_insert, before the entry is set. */
  lemma {:induction false} Pin(s: State, held: set<nat>, pend: Option<Loc>, f: nat)
    requires Inv(s, held, None, pend) && f < |s.ref| && f !in s.free
    ensures var s' := s.(ref := s.ref[f := s.ref[f] + 1]);
            Inv(s', held, Some(f), pend) && View(s') == View(s)
  {
    hide PteOk, SlotOk, HashOk, LruOk, CleanOk, PairOk, CacheOk, MapsOf;
  }

  /** A pinned frame is not free. */
  lemma {:induction false} PinnedUsed(s: State, held: set<nat>, pend: Option<Loc>, f: nat)
    requires Inv(s, held, Some(f), pend) && f < |s.swap|
    ensures f !in s.free && Sizes(s)
  {
  }

  /** What is left may share a page with the new entry as before. */
  lemma {:induction false} CompatibleKept(pt: Table, swap: seq<bool>, index: seq<nat>, swap': seq<bool>,
                                          index': seq<nat>, l: Loc, p: Pte)
    requires Compatible(pt, swap, index, l, p)
    requires forall k :: k in pt ==> ObjOf(swap', index', pt[k]) == ObjOf(swap, index, pt[k])
    requires ObjOf(swap', index', p) == ObjOf(swap, index, p)
    ensures Compatible(pt, swap', index', l, p)
  {
  }

  /**
   An entry for the same page as the one at `l` goes with what is left when that is removed, unless it is writable.
   */
  lemma {:induction false} SharedCompatible(s: State, held: set<nat>, pend: Option<Loc>, l: Loc, p: Pte)
    requires Inv(s, held, None, pend) && l in s.pt && ObjOf(s.swap, s.index, p) == ObjOf(s.swap, s.index, s.pt[l])
    requires Writable(p) ==> Alone(s.pt, s.swap, s.index, l)
    ensures Compatible(s.pt - {l}, s.swap, s.index, l, p)
  {
    hide PteOk, RefOk, UsedOk, SlotOk, HashOk, LruOk, CleanOk, CacheOk;
    forall k | k in s.pt - {l} && ObjOf(s.swap, s.index, (s.pt - {l})[k]) == ObjOf(s.swap, s.index, p)
      ensures k.va == l.va && !Writable(s.pt[k]) && !Writable(p)
    {
      assert k in s.pt && k != l && s.pt[k] == (s.pt - {l})[k];
    }
  }

  /** Nothing stands for a frame in hand. */
  lemma {:induction false} NewCompatible(s: State, held: set<nat>, pin: Option<nat>, pend: Option<Loc>, l: Loc, p: Pte)
    requires Inv(s, held, pin, pend) && p.Present? && p.frame in held
    ensures p.frame < |s.swap| && p.frame !in s.free && !s.swap[p.frame] && MapsOf(s.pt, p.frame) == {}
    ensures Compatible(s.pt, s.swap, s.index, l, p) && Compatible(s.pt - {l}, s.swap, s.index, l, p)
  {
    hide PteOk, RefOk, SlotOk, HashOk, LruOk, CleanOk, PairOk, CacheOk;
    forall k | k in s.pt
      ensures ObjOf(s.swap, s.index, s.pt[k]) != Anon(p.frame)
    {
      assert Maps(s.pt[k], p.frame) ==> k in MapsOf(s.pt, p.frame);
    }
  }

  /** The same page in another address space, where the first one is not writable. */
  lemma {:induction false} ForkCompatible(s: State, held: set<nat>, pin: Option<nat>, pend: Option<Loc>, l: Loc, k: Loc,
                                          p: Pte)
    requires Inv(s, held, pin, pend) && l in s.pt && k !in s.pt && k.va == l.va && !Writable(s.pt[l]) && !Writable(p)
    requires ObjOf(s.swap, s.index, p) == ObjOf(s.swap, s.index, s.pt[l])
    ensures Compatible(s.pt, s.swap, s.index, k, p)
  {
    hide PteOk, RefOk, UsedOk, SlotOk, HashOk, LruOk, CleanOk, CacheOk;
  }

  // ---------- copy-on-write exclusivity ----------

  lemma {:induction false} WritableAlone(s: State, held: set<nat>, pin: Option<nat>, pend: Option<Loc>, l: Loc)
    requires Inv(s, held, pin, pend) && l in s.pt && Writable(s.pt[l])
    ensures Alone(s.pt, s.swap, s.index, l)
  {
    hide PteOk, RefOk, UsedOk, SlotOk, HashOk, LruOk, CleanOk, CacheOk;
  }

  /** The frame of a writable entry has one user: its page_ref and its swap_page_count add up to 1. */
  lemma {:induction false} CowExclusive(s: State, held: set<nat>, pend: Option<Loc>, l: Loc)
    requires Inv(s, held, None, pend) && l in s.pt && Writable(s.pt[l])
    ensures var f := s.pt[l].frame;
            && f < |s.ref| && (s.swap[f] ==> s.index[f] < |s.mem_map|)
            && s.ref[f] + (if s.swap[f] then s.mem_map[s.index[f]] else 0) == 1
    ensures forall k :: k in s.pt && k != l ==> ObjOf(s.swap, s.index, s.pt[k]) != ObjOf(s.swap, s.index, s.pt[l])
  {
    WritableAlone(s, held, None, pend, l);
    assert EntryOk(s.pt[l], |s.swap|, s.free, s.mem_map);
    var f := s.pt[l].frame;
    assert s.swap[f] ==> s.index[f] in s.cache;
    OneUser(s, held, pend, l, f);
  }
}
