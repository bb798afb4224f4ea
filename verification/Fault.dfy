/**
 Page tables and page faults (kern/mm/pmm.c, and do_pgfault in kern/mm/vmm.c) over the machine of `Swap`,
 for private mappings: entries are set and removed, ranges are unmapped and copied by fork, and faults
 bring pages in and copy those that several address spaces have.
 */
module Fault {
  import opened Defs
  import opened Lists
  import opened Paging
  import opened PagingSteps
  import opened Swap

  // ---------- pmm.c ----------

  /** page_remove_pte: the entry is removed with its reference, and what nobody uses any more is given up. */
  method PageRemovePte(m: Memory, l: Loc, ghost held: set<nat>, ghost pin: Option<nat>, ghost pend: Option<Loc>)
    requires Inv(m.St(), held, pin, pend) && m.Counted() && l in m.pt && pend != Some(l)
    requires m.pt[l].Present? ==> pin != Some(m.pt[l].frame)
    modifies m
    ensures m.Counted()
    ensures Inv(m.St(), held, pin, pend)
    ensures m.Memories() == old(m.Memories()) - {l}
    ensures m.pt == old(m.pt) - {l} && m.mem == old(m.mem)
    ensures SameObjs(m.pt, old(m.page_swap), old(m.page_index), m.page_swap, m.page_index, pin)
    ensures NoNewSwap(old(m.page_swap), m.page_swap)
  {
    hide Inv, View, SameObjs;
    match m.pt[l] {
      case Present(page, _, _, d) =>
        ghost var s := m.St();
        PresentOk(s, held, pin, pend, l);
        SameObjsRefl(m.pt - {l}, m.page_swap, m.page_index, pin);
        if !m.page_swap[page] {
          DropPresent(s, held, pin, pend, l, m.page_dirty);
          m.page_ref := m.page_ref[page := m.page_ref[page] - 1];
          m.pt := m.pt - {l};
          if m.page_ref[page] == 0 {
            m.FreePage(page, held + {page}, pin, pend);
            assert held + {page} - {page} == held;
          }
        } else {
          if d {
            m.page_dirty := m.page_dirty[page := true];
          }
          DropPresent(s, held, pin, pend, l, m.page_dirty);
          m.page_ref := m.page_ref[page := m.page_ref[page] - 1];
          m.pt := m.pt - {l};
        }
      case Swapped(entry) =>
        m.SwapRemoveEntry(entry, l, held, pin, pend);
        SameObjsSwap(m.pt, old(m.page_swap), old(m.page_index), m.page_swap, m.page_index, pin);
    }
  }

  /** No frame has got a swap entry. */
  ghost predicate NoNewSwap(swap: seq<bool>, swap': seq<bool>) {
    |swap'| == |swap| && forall f :: 0 <= f < |swap| && swap'[f] ==> swap[f]
  }

  lemma {:induction false} SameObjsSwap(pt: Table, swap: seq<bool>, index: seq<nat>, swap': seq<bool>, index': seq<nat>,
                                        pin: Option<nat>)
    requires SameObjs(pt, swap, index, swap', index', pin)
    ensures NoNewSwap(swap, swap')
  {
  }

  /** unmap_range: the entries of the pages from `start` to `end` are removed. */
  method UnmapRange(m: Memory, space: nat, start: nat, end: nat)
    requires Inv(m.St(), {}, None, None) && m.Counted() && start < end
    modifies m
    ensures m.Counted()
    ensures Inv(m.St(), {}, None, None)
    ensures forall l :: l in m.Memories() <==> l in old(m.Memories()) && !(l.space == space && start <= l.va < end)
    ensures forall l :: l in m.Memories() ==> m.Memories()[l] == old(m.Memories())[l]
    ensures NoWider(old(m.pt), m.pt, space, start, start)
    ensures m.mem == old(m.mem) && NoNewSwap(old(m.page_swap), m.page_swap)
  {
    hide Inv, SameObjs, ValOf;
    for va := start to end
      invariant m.Counted()
      invariant NoWider(old(m.pt), m.pt, space, start, start)
      invariant m.mem == old(m.mem) && NoNewSwap(old(m.page_swap), m.page_swap)
      invariant Inv(m.St(), {}, None, None)
      invariant forall l :: l in m.Memories() <==> l in old(m.Memories()) && !(l.space == space && start <= l.va < va)
      invariant forall l :: l in m.Memories() ==> m.Memories()[l] == old(m.Memories())[l]
    {
      var l := Loc(space, va);
      if l in m.pt {
        PageRemovePte(m, l, {}, None, None);
      }
    }
  }

  /**
   What the calls come to that may fail: get_pte for a missing table, alloc_page in do_pgfault itself or in
   pgdir_alloc_page, and alloc_page and swapfs_read in swap_in_page.
   */
  datatype Luck = Luck(table: bool, newpage: bool, swapin: bool, read: bool)

  /** get_pte: a table that is missing has to be allocated, which may fail; a table with an entry is there. */
  method GetPte(m: Memory, l: Loc, table: bool) returns (ok: bool)
    ensures ok <==> table || l in m.pt
  {
    ok := table || l in m.pt;
  }

  /** page_insert of the frame that is mapped already: only the bits of the entry change. */
  method PageInsertSame(m: Memory, l: Loc, p: Pte, ghost held: set<nat>, ghost pend: Option<Loc>)
    requires Inv(m.St(), held, None, None) && m.Counted() && l in m.pt && m.pt[l].Present? && p.Present?
    requires m.pt[l].frame == p.frame
    requires p.w && !m.pt[l].w ==> Alone(m.pt, m.page_swap, m.page_index, l)
    requires pend in {None, Some(l)} && (m.pt[l].d && !p.d ==> pend == Some(l))
    modifies m`pt, m`page_ref
    ensures m.Counted()
    ensures Inv(m.St(), held, None, pend)
    ensures m.Memories() == old(m.Memories())
    ensures m.pt == old(m.pt)[l := p] && m.page_ref == old(m.page_ref)
  {
    hide Inv, View, Alone;
    var page := p.frame;
    PresentOk(m.St(), held, None, None, l);
    m.page_ref := m.page_ref[page := m.page_ref[page] + 1];
    m.page_ref := m.page_ref[page := m.page_ref[page] - 1];
    assert m.page_ref == old(m.page_ref);
    SetBits(m.St(), held, None, None, pend, l, p);
    m.pt := m.pt[l := p];
  }

  /** page_insert of another frame: what was mapped before is removed, after the new reference has been taken. */
  method PageInsertOther(m: Memory, l: Loc, p: Pte, table: bool, ghost held: set<nat>) returns (ret: int)
    requires Inv(m.St(), held, None, None) && m.Counted() && p.Present? && p.frame < |m.page_ref| && p.frame !in m.free
    requires l.space < MAX_SPACES && (l in m.pt ==> !Maps(m.pt[l], p.frame))
    requires Compatible(m.pt - {l}, m.page_swap, m.page_index, l, p)
    modifies m
    ensures m.Counted()
    ensures ret == if table || l in old(m.pt) then 0 else -E_NO_MEM
    ensures ret == 0 ==> Inv(m.St(), held - {p.frame}, None, None)
    ensures ret == 0 ==> p.frame < |old(m.mem)| && m.Memories() == old(m.Memories())[l := old(m.mem)[p.frame]]
    ensures ret == 0 ==> m.pt == old(m.pt)[l := p]
    ensures m.mem == old(m.mem)
    ensures l !in old(m.pt) ==> m.page_swap == old(m.page_swap) && m.free == old(m.free)
    ensures ret != 0 ==> m.St() == old(m.St())
  {
    hide Inv, View, Compatible, SameObjs;
    var got := GetPte(m, l, table);
    if !got {
      return -E_NO_MEM;
    }
    var page := p.frame;
    ghost var s, pt0 := m.St(), m.pt;
    SizesOf(s, held, None, None);
    Pin(s, held, None, page);
    m.page_ref := m.page_ref[page := m.page_ref[page] + 1];
    assert m.pt - {l} == if l in m.pt then m.pt - {l} else m.pt;
    if l in m.pt {
      PageRemovePte(m, l, held, Some(page), None);
      KeptObjs(pt0 - {l}, s.swap, s.index, m.page_swap, m.page_index, l, p);
    }
    PinnedUsed(m.St(), held, None, page);
    AddPresent(m.St(), held, None, l, p);
    m.pt := m.pt[l := p];
    assert m.pt == pt0[l := p];
    assert (View(s) - {l})[l := s.mem[page]] == View(s)[l := s.mem[page]];
    ret := 0;
  }

  /**
   page_insert. Where the frame is mapped already, PTE_D may get lost, and a store has to follow at `pend`; only the
   page of this entry alone may become writable.
   */
  method PageInsert(m: Memory, l: Loc, p: Pte, table: bool, ghost held: set<nat>, ghost pend: Option<Loc>)
    returns (ret: int)
    requires Inv(m.St(), held, None, None) && m.Counted() && p.Present? && p.frame < |m.page_ref| && p.frame !in m.free
    requires l.space < MAX_SPACES
    requires if l in m.pt && Maps(m.pt[l], p.frame)
             then (p.w && !m.pt[l].w ==> Alone(m.pt, m.page_swap, m.page_index, l))
                  && pend in {None, Some(l)} && (m.pt[l].d && !p.d ==> pend == Some(l))
             else pend == None && Compatible(m.pt - {l}, m.page_swap, m.page_index, l, p)
    modifies m
    ensures m.Counted()
    ensures ret == if table || l in old(m.pt) then 0 else -E_NO_MEM
    ensures ret == 0 ==> Inv(m.St(), held - {p.frame}, None, pend)
    ensures ret == 0 ==> p.frame < |old(m.mem)| && m.Memories() == old(m.Memories())[l := old(m.mem)[p.frame]]
    ensures ret == 0 ==> m.pt == old(m.pt)[l := p]
    ensures m.mem == old(m.mem)
    ensures l !in old(m.pt) ==> m.page_swap == old(m.page_swap) && m.free == old(m.free)
    ensures ret != 0 ==> m.St() == old(m.St())
  {
    hide Inv, View, Compatible, Alone;
    if l in m.pt && Maps(m.pt[l], p.frame) {
      PresentOk(m.St(), held, None, None, l);
      PresentVal(m.St(), l);
      PageInsertSame(m, l, p, held, pend);
      assert held - {p.frame} == held;
      ret := 0;
    } else {
      ret := PageInsertOther(m, l, p, table, held);
    }
  }

  lemma {:induction false} KeptObjs(pt: Table, swap: seq<bool>, index: seq<nat>, swap': seq<bool>, index': seq<nat>,
                                    l: Loc, p: Pte)
    requires p.Present? && SameObjs(pt, swap, index, swap', index', Some(p.frame)) && p.frame < |swap|
    requires Compatible(pt, swap, index, l, p)
    ensures Compatible(pt, swap', index', l, p) && |swap'| == |swap|
  {
    CompatibleKept(pt, swap, index, swap', index', l, p);
  }

  // ---------- do_pgfault ----------

  /** What the switch of do_pgfault lets pass: `present` and `write` are the low bits of the error code. */
  function Allowed(present: bool, write: bool, flags: bv32): bool {
    if write then flags & VM_WRITE != 0 else !present && flags & (VM_READ | VM_EXEC) != 0
  }

  /** The entry `l` maps a frame that was free, as it was. */
  ghost predicate FreshFrame(s: State, s': State, l: Loc) {
    && l in s'.pt && s'.pt == s.pt[l := s'.pt[l]] && s'.pt[l].Present? && s'.pt[l].frame in s.free
      && s'.free == s.free - {s'.pt[l].frame}
    && s'.mem == s.mem && s'.swap == s.swap
  }

  /** pgdir_alloc_page: the frame is mapped with the contents that it has. */
  method PgdirAllocPage(m: Memory, l: Loc, w: bool, table: bool, lucky: bool) returns (ret: int)
    requires Inv(m.St(), {}, None, None) && m.Counted() && l !in m.pt && l.space < MAX_SPACES
    modifies m
    ensures m.Counted()
    ensures Inv(m.St(), {}, None, None)
    ensures ret == if table && lucky && old(m.free) != {} then 0 else -E_NO_MEM
    ensures ret != 0 ==> m.Memories() == old(m.Memories()) && m.pt == old(m.pt)
    ensures ret == 0 ==> FreshFrame(old(m.St()), m.St(), l)
    ensures ret == 0 ==> l in m.pt && m.pt[l].Present? && m.pt[l].w == w && m.pt == old(m.pt)[l := m.pt[l]]
    ensures ret == 0 ==> l in m.Memories() && m.Memories() == old(m.Memories())[l := m.Memories()[l]]
  {
    hide Inv, View, Compatible, MapsOf;
    var got := m.AllocPage(lucky, {}, None, None);
    if got == None {
      return -E_NO_MEM;
    }
    var page := got.value;
    var p := Present(page, w, false, false);
    assert {} + {page} == {page} && {page} - {page} == {};
    NewCompatible(m.St(), {page}, None, None, l, p);
    SizesOf(m.St(), {page}, None, None);
    ret := PageInsert(m, l, p, table, {page}, None);
    if ret != 0 {
      m.FreePage(page, {page}, None, None);
      return -E_NO_MEM;
    }
  }

  /** The frame that do_pgfault has found holds the page that the entry stands for. */
  ghost predicate Resolves(m: Memory, l: Loc, page: nat)
    reads m
  {
    && l in m.pt && page < |m.page_swap| && page < |m.mem| && page !in m.free
    && ObjOf(m.page_swap, m.page_index, Present(page, false, false, false)) == ObjOf(m.page_swap, m.page_index, m.pt[l])
    && ValOf(m.page_swap, m.page_index, m.cache, m.mem, m.disk, m.pt[l]) == m.mem[page]
    && (m.pt[l].Present? ==> m.pt[l].frame == page)
  }

  /** The end of do_pgfault when the page is copied: the new frame takes the place of the shared one. */
  method CopyShared(m: Memory, l: Loc, page: nat, newpage: nat)
    requires Inv(m.St(), {newpage}, None, None) && m.Counted() && Resolves(m, l, page) && l.space < MAX_SPACES
    modifies m
    ensures m.Counted()
    ensures Inv(m.St(), {}, None, None)
    ensures m.Memories() == old(m.Memories())
    ensures m.pt == old(m.pt)[l := Present(newpage, true, false, false)]
  {
    hide Inv, Compatible, MapsOf;
    var p := Present(newpage, true, false, false);
    NewCompatible(m.St(), {newpage}, None, None, l, p);
    SizesOf(m.St(), {newpage}, None, None);
    ghost var c := m.mem[page];
    assert m.Memories()[l] == c;
    Fill(m.St(), {newpage}, None, None, newpage, m.mem[page]);
    m.mem := m.mem[newpage := m.mem[page]];
    NewCompatible(m.St(), {newpage}, None, None, l, p);
    HeldUnmapped(m.St(), {newpage}, None, None, l, newpage);
    var ret := PageInsert(m, l, p, true, {newpage}, None);
    assert {newpage} - {newpage} == {};
  }

  /** The end of do_pgfault when the page is mapped as it is. */
  method MapResolved(m: Memory, l: Loc, page: nat, w: bool, ghost held: set<nat>) returns (ghost pend: Option<Loc>)
    requires Inv(m.St(), held, None, None) && m.Counted() && Resolves(m, l, page) && page !in held
    requires l.space < MAX_SPACES
    requires w ==> Alone(m.pt, m.page_swap, m.page_index, l)
    requires m.pt[l].Present? ==> w
    modifies m
    ensures m.Counted()
    ensures Inv(m.St(), held, None, pend)
    ensures m.Memories() == old(m.Memories())
    ensures m.pt == old(m.pt)[l := Present(page, w, false, false)]
    ensures pend == if old(m.pt)[l].Present? then Some(l) else None
  {
    hide Inv, Compatible, Alone;
    var p := Present(page, w, false, false);
    SizesOf(m.St(), held, None, None);
    pend := if m.pt[l].Present? then Some(l) else None;
    if m.pt[l].Swapped? {
      SharedCompatible(m.St(), held, None, l, p);
    }
    assert m.Memories()[l] == m.mem[page];
    var ret := PageInsert(m, l, p, true, held, pend);
    assert held - {page} == held;
  }

  /**
   The end of do_pgfault for an entry that is not zero, when its page is in the frame `page`; `w` is PTE_W,
   and for a private area also `cow && may_copy`. A page that a store would change for others, too, is
   copied, which fails without a new frame.
   */
  method ResolveFault(m: Memory, l: Loc, page: nat, w: bool, newpage: Option<nat>)
    returns (mapped: bool, ghost pend: Option<Loc>)
    requires Inv(m.St(), InHand(newpage), None, None) && m.Counted() && Resolves(m, l, page) && l.space < MAX_SPACES
    requires m.pt[l].Present? ==> w
    modifies m
    ensures m.Counted()
    ensures Inv(m.St(), {}, None, pend)
    ensures m.Memories() == old(m.Memories())
    ensures l in m.pt && m.pt == old(m.pt)[l := m.pt[l]]
    ensures mapped <==> !(w && newpage == None && !Alone(old(m.pt), old(m.page_swap), old(m.page_index), l))
    ensures mapped ==> m.pt[l].Present? && m.pt[l].w == w
    ensures !mapped ==> m.pt == old(m.pt)
    ensures pend == None || (pend == Some(l) && mapped && w)
  {
    hide Inv, Compatible, Alone, View, ValOf;
    pend := None;
    mapped := true;
    SizesOf(m.St(), InHand(newpage), None, None);
    ResolvedFrame(m, l, page, InHand(newpage));
    if w {
      OneUser(m.St(), InHand(newpage), None, l, page);
      if m.page_ref[page] + m.SwapPageCount(page) > 1 {
        if newpage == None {
          return false, None;
        }
        CopyShared(m, l, page, newpage.value);
        return;
      }
    }
    pend := MapResolved(m, l, page, w, InHand(newpage));
    if newpage.Some? {
      m.FreePage(newpage.value, InHand(newpage), None, pend);
      assert InHand(newpage) - {newpage.value} == {};
    }
  }

  /** The frame that do_pgfault has allocated beforehand. */
  ghost function InHand(newpage: Option<nat>): set<nat> {
    if newpage.Some? then {newpage.value} else {}
  }

  lemma {:induction false} ResolvedFrame(m: Memory, l: Loc, page: nat, held: set<nat>)
    requires Inv(m.St(), held, None, None) && Resolves(m, l, page)
    ensures page !in held && page < |m.page_ref| && page < |m.page_index|
    ensures m.page_swap[page] ==> m.page_index[page] < |m.mem_map|
  {
    var s := m.St();
    if s.swap[page] {
      NotHeld(s, held, None, None, page);
    } else {
      PresentOk(s, held, None, None, l);
    }
  }

  /** Swapping in has found the page of the entry. */
  lemma {:induction false} InResolves(m: Memory, held: set<nat>, l: Loc, page: nat)
    requires Inv(m.St(), held, None, None) && l in m.pt && m.pt[l].Swapped? && m.pt[l].slot in m.cache
    requires m.cache[m.pt[l].slot] == page
    ensures Resolves(m, l, page)
  {
  }

  lemma {:induction false} PresentResolves(m: Memory, held: set<nat>, l: Loc)
    requires Inv(m.St(), held, None, None) && l in m.pt && m.pt[l].Present?
    ensures Resolves(m, l, m.pt[l].frame)
  {
    PresentOk(m.St(), held, None, None, l);
  }

  lemma {:induction false} AloneKept(pt: Table, swap: seq<bool>, index: seq<nat>, swap': seq<bool>, index': seq<nat>,
                                     l: Loc)
    requires forall k :: k in pt ==> ObjOf(swap', index', pt[k]) == ObjOf(swap, index, pt[k])
    ensures Alone(pt, swap', index', l) <==> Alone(pt, swap, index, l)
  {
  }

  /** In a private area `cow` is VM_WRITE. */
  lemma {:induction false} PrivateCow(flags: bv32)
    requires flags & VM_SHARE == 0
    ensures flags & (VM_SHARE | VM_WRITE) == VM_WRITE <==> flags & VM_WRITE != 0
  {
  }

  predicate IsPresent(pt: Table, l: Loc) {
    l in pt && pt[l].Present?
  }

  predicate IsWritable(pt: Table, l: Loc) {
    l in pt && Writable(pt[l])
  }

  /** The access will not fault. */
  predicate Serves(pt: Table, l: Loc, write: bool) {
    IsPresent(pt, l) && (write ==> IsWritable(pt, l))
  }

  /** The page of a swap entry that others have, too. */
  ghost predicate SharedSwapped(pt: Table, swap: seq<bool>, index: seq<nat>, l: Loc) {
    l in pt && pt[l].Swapped? && !Alone(pt, swap, index, l)
  }

  /**
   When a store faults, do_pgfault returns 0, and the page is still not mapped: others have the page, too, it is in
   swap space, it is in memory or can be read, and there is no frame for the copy.
   */
  ghost predicate Unserved(s: State, l: Loc, luck: Luck) {
    && SharedSwapped(s.pt, s.swap, s.index, l) && !(luck.newpage && s.free != {})
    && (s.pt[l].slot in s.cache || (luck.swapin && luck.read && s.free != {}))
  }

  /** In an area with VM_WRITE a frame is taken for a copy first, if there is one. */
  ghost predicate HasSpare(s: State, flags: bv32, luck: Luck) {
    flags & VM_WRITE != 0 && luck.newpage && s.free != {}
  }

  /** Then there is another one for the page. */
  ghost predicate FrameLeft(s: State, flags: bv32, luck: Luck) {
    luck.swapin && |s.free| > if HasSpare(s, flags, luck) then 1 else 0
  }

  /**
   When a fault at a page that has an entry can be served: the page is in memory, or it can be read into a frame; and
   for a store it is nobody else's, or there is a frame for the copy.
   */
  ghost predicate Servable(s: State, l: Loc, write: bool, flags: bv32, luck: Luck) {
    && l in s.pt
    && (s.pt[l].Present? || s.pt[l].slot in s.cache || (FrameLeft(s, flags, luck) && luck.read))
    && (write ==> Alone(s.pt, s.swap, s.index, l) || HasSpare(s, flags, luck))
  }

  /** The page cannot be read from swap space. */
  ghost predicate ReadFails(s: State, l: Loc, flags: bv32, luck: Luck) {
    l in s.pt && s.pt[l].Swapped? && s.pt[l].slot !in s.cache && FrameLeft(s, flags, luck) && !luck.read
  }

  lemma {:induction false} FramesAfter(free: set<nat>, free': set<nat>, newpage: Option<nat>)
    requires if newpage.Some? then newpage.value in free && free' == free - {newpage.value} else free' == free
    ensures free' != {} <==> |free| > if newpage.Some? then 1 else 0
  {
    if newpage.Some? {
      SizeWith(free, newpage.value);
    }
    assert free' == {} <==> |free'| == 0;
  }

  /** The page of a swap entry is brought in; on failure the frame in hand is given back. */
  method BringIn(m: Memory, l: Loc, entry: nat, luck: Luck, newpage: Option<nat>) returns (ret: int, page: nat)
    requires Inv(m.St(), InHand(newpage), None, None) && m.Counted() && l in m.pt && m.pt[l] == Swapped(entry)
    modifies m
    ensures m.Counted()
    ensures Inv(m.St(), if ret == 0 then InHand(newpage) else {}, None, None)
    ensures m.Memories() == old(m.Memories()) && m.pt == old(m.pt)
    ensures ret == if entry in old(m.cache) || (luck.swapin && old(m.free) != {} && luck.read) then 0
                   else if luck.swapin && old(m.free) != {} then -E_SWAP_FAULT else -E_NO_MEM
    ensures ret == 0 ==> Resolves(m, l, page)
    ensures Alone(m.pt, m.page_swap, m.page_index, l) <==> Alone(m.pt, old(m.page_swap), old(m.page_index), l)
  {
    hide Inv, View, Alone, Resolves;
    SlotBound(m.St(), InHand(newpage), None, None, l, entry);
    ret, page := m.SwapInPage(entry, luck.swapin, luck.read, InHand(newpage), None);
    AloneKept(m.pt, old(m.page_swap), old(m.page_index), m.page_swap, m.page_index, l);
    if ret == 0 {
      InResolves(m, InHand(newpage), l, page);
    } else if newpage.Some? {
      m.FreePage(newpage.value, InHand(newpage), None, None);
      assert InHand(newpage) - {newpage.value} == {};
    }
  }

  /** The page of the entry is in memory, or can be brought in. */
  ghost predicate Reachable(s: State, l: Loc, luck: Luck) {
    l in s.pt && (s.pt[l].Present? || s.pt[l].slot in s.cache || (luck.swapin && s.free != {} && luck.read))
  }

  /** Nobody else has the page, or there is a frame for a copy. */
  ghost predicate MayOwn(s: State, l: Loc, newpage: Option<nat>) {
    Alone(s.pt, s.swap, s.index, l) || newpage.Some?
  }

  /** The else branch of do_pgfault once the frame for a copy has been asked for. */
  method FaultPage(m: Memory, l: Loc, write: bool, cow: bool, luck: Luck, newpage: Option<nat>)
    returns (ret: int, ghost pend: Option<Loc>)
    requires Inv(m.St(), InHand(newpage), None, None) && m.Counted() && l in m.pt && l.space < MAX_SPACES
    requires (m.pt[l].Present? ==> write && !m.pt[l].w) && (write ==> cow) && (newpage.Some? ==> cow)
    modifies m
    ensures m.Counted()
    ensures Inv(m.St(), {}, None, pend)
    ensures m.Memories() == old(m.Memories())
    ensures l in m.pt && m.pt == old(m.pt)[l := m.pt[l]]
    ensures Writable(m.pt[l]) ==> cow
    ensures !write ==> !Writable(m.pt[l])
    ensures ret in {0, -E_NO_MEM, -E_SWAP_FAULT} && (ret != 0 ==> m.pt == old(m.pt))
    ensures pend == None || (pend == Some(l) && write && IsWritable(m.pt, l))
    ensures Serves(m.pt, l, write) <==> Reachable(old(m.St()), l, luck) && (write ==> MayOwn(old(m.St()), l, newpage))
    ensures ret == 0 <==>
            Reachable(old(m.St()), l, luck) && (write ==> MayOwn(old(m.St()), l, newpage) || old(m.pt)[l].Swapped?)
    ensures ret == -E_SWAP_FAULT <==> old(m.pt)[l].Swapped? && !Reachable(old(m.St()), l, luck)
                                      && luck.swapin && old(m.free) != {}
  {
    hide Inv, View, Alone, Resolves, MapsOf;
    var w := cow;
    pend := None;
    ret := -E_NO_MEM;
    var page;
    match m.pt[l] {
      case Present(f, _, _, _) =>
        page := f;
        PresentResolves(m, InHand(newpage), l);
      case Swapped(entry) =>
        ret, page := BringIn(m, l, entry, luck, newpage);
        if ret != 0 {
          return;
        }
        if !write && cow {
          w := false;
        }
    }
    var mapped;
    mapped, pend := ResolveFault(m, l, page, w, newpage);
    if mapped {
      ret := 0;
    }
  }

  /** The else branch of do_pgfault: the page is there, or in swap space. */
  method FaultIn(m: Memory, l: Loc, write: bool, flags: bv32, luck: Luck) returns (ret: int, ghost pend: Option<Loc>)
    requires Inv(m.St(), {}, None, None) && m.Counted() && l in m.pt && l.space < MAX_SPACES && flags & VM_SHARE == 0
    requires m.pt[l].Present? ==> write && !m.pt[l].w && flags & VM_WRITE != 0
    requires write ==> flags & VM_WRITE != 0
    modifies m
    ensures m.Counted()
    ensures Inv(m.St(), {}, None, pend)
    ensures m.Memories() == old(m.Memories())
    ensures l in m.pt && m.pt == old(m.pt)[l := m.pt[l]]
    ensures Writable(m.pt[l]) ==> Writable(old(m.pt)[l]) || flags & VM_WRITE != 0
    ensures !write ==> !Writable(m.pt[l])
    ensures ret in {0, -E_NO_MEM, -E_SWAP_FAULT} && (ret != 0 ==> m.pt == old(m.pt))
    ensures pend == None || (pend == Some(l) && write && IsWritable(m.pt, l))
    ensures ret == 0 && !Serves(m.pt, l, write) <==> write && Unserved(old(m.St()), l, luck)
    ensures Serves(m.pt, l, write) <==> Servable(old(m.St()), l, write, flags, luck)
    ensures ret == -E_SWAP_FAULT <==> ReadFails(old(m.St()), l, flags, luck)
  {
    hide Inv, View, Alone, MapsOf, Serves;
    var cow := flags & (VM_SHARE | VM_WRITE) == VM_WRITE;
    PrivateCow(flags);
    var newpage := None;
    if cow {
      newpage := m.AllocPage(luck.newpage, {}, None, None);
      assert newpage.Some? ==> {} + {newpage.value} == {newpage.value};
    }
    FramesAfter(old(m.free), m.free, newpage);
    ret, pend := FaultPage(m, l, write, cow, luck, newpage);
  }

  /** The memories are the same but for a page that was not there. */
  ghost predicate Gained(a: map<Loc, Content>, b: map<Loc, Content>, l: Loc) {
    l !in a && l in b && b == a[l := b[l]]
  }

  /**
   The entry of a page comes only into an area, and becomes writable only in one with VM_WRITE; no other entry does.
   */
  ghost predicate Grants(pt: Table, pt': Table, l: Loc, in_area: bool, flags: bv32) {
    && NoWider(pt, pt', l.space, l.va, l.va + 1)
    && (l in pt' ==> l in pt || in_area)
    && (IsWritable(pt', l) ==> IsWritable(pt, l) || (in_area && flags & VM_WRITE != 0))
  }

  /** When do_pgfault serves an access in an area with these flags. */
  ghost predicate MayMap(s: State, l: Loc, write: bool, flags: bv32, luck: Luck) {
    && Allowed(IsPresent(s.pt, l), write, flags)
    && if l in s.pt then Servable(s, l, write, flags, luck) else luck.table && luck.newpage && s.free != {}
  }

  /** When an access succeeds: the page is there as it has to be, or the fault is served. */
  ghost predicate Succeeds(s: State, l: Loc, write: bool, in_area: bool, flags: bv32, luck: Luck) {
    Serves(s.pt, l, write) || (in_area && MayMap(s, l, write, flags, luck))
  }

  lemma {:induction false} GrantsSame(pt: Table, l: Loc, in_area: bool, flags: bv32)
    ensures Grants(pt, pt, l, in_area, flags)
  {
  }

  lemma {:induction false} GrantsOne(pt: Table, p: Pte, l: Loc, flags: bv32)
    requires Writable(p) ==> (l in pt && Writable(pt[l])) || flags & VM_WRITE != 0
    ensures Grants(pt, pt[l := p], l, true, flags)
  {
  }

  /** A page that is not there is not in swap space, and nobody has access to it. */
  lemma {:induction false} NotThere(s: State, l: Loc, write: bool, luck: Luck)
    requires l !in s.pt
    ensures !Unserved(s, l, luck) && !IsPresent(s.pt, l) && !Serves(s.pt, l, write)
  {
  }

  lemma {:induction false} GainedOne(a: map<Loc, Content>, b: map<Loc, Content>, l: Loc)
    requires l !in a && l in b && b == a[l := b[l]]
    ensures Gained(a, b, l)
  {
  }

  /**
   do_pgfault for a private area; `in_area` is what find_vma and the guard page of a stack say. The processor
   raises the fault when the entry is not present, or for a store when it is not writable. The result 0 does
   not always mean that the access will succeed: the last clause says exactly when it does not.
   */
  method DoPgfault(m: Memory, l: Loc, write: bool, in_area: bool, flags: bv32, luck: Luck)
    returns (ret: int, ghost pend: Option<Loc>)
    requires Inv(m.St(), {}, None, None) && m.Counted() && l.space < MAX_SPACES && flags & VM_SHARE == 0
    requires !Serves(m.pt, l, write)
    modifies m
    ensures m.Counted()
    ensures Inv(m.St(), {}, None, pend)
    ensures ret in {0, -E_INVAL, -E_NO_MEM, -E_SWAP_FAULT}
    ensures ret == -E_INVAL <==>
            !in_area || (if write then flags & VM_WRITE == 0 else flags & VM_READ == 0 && flags & VM_EXEC == 0)
    ensures ret != 0 ==> m.pt == old(m.pt)
    ensures ret != 0 || l in old(m.pt) ==> m.Memories() == old(m.Memories())
    ensures ret == 0 && l !in old(m.pt) ==> Gained(old(m.Memories()), m.Memories(), l)
    ensures Serves(m.pt, l, write) <==> in_area && MayMap(old(m.St()), l, write, flags, luck)
    ensures ret == -E_SWAP_FAULT <==> in_area && Allowed(IsPresent(old(m.pt), l), write, flags)
                                      && ReadFails(old(m.St()), l, flags, luck)
    ensures ret == 0 && l !in old(m.pt) ==> FreshFrame(old(m.St()), m.St(), l)
    ensures ret == 0 && l !in old(m.pt) ==> (IsWritable(m.pt, l) <==> flags & VM_WRITE != 0)
    ensures ret == 0 && l in old(m.pt) && !write ==> !IsWritable(m.pt, l)
    ensures Grants(old(m.pt), m.pt, l, in_area, flags)
    ensures pend == None || (pend == Some(l) && write && IsWritable(m.pt, l))
    ensures ret == 0 && !Serves(m.pt, l, write) <==>
            in_area && flags & VM_WRITE != 0 && write && Unserved(old(m.St()), l, luck)
  {
    hide Inv, View, Alone, Grants, Gained, FreshFrame, Unserved, NoWider;
    pend := None;
    ViewKeys(m.St());
    GrantsSame(m.pt, l, in_area, flags);
    if !in_area || !Allowed(IsPresent(m.pt, l), write, flags) {
      return -E_INVAL, pend;
    }
    ret := -E_NO_MEM;
    if l !in m.pt {
      NotThere(m.St(), l, write, luck);
    }
    var got := GetPte(m, l, luck.table);
    if !got {
      return;
    }
    if l !in m.pt {
      ret := PgdirAllocPage(m, l, flags & VM_WRITE != 0, true, luck.newpage);
      if ret == 0 {
        GrantsOne(old(m.pt), m.pt[l], l, flags);
        GainedOne(old(m.Memories()), m.Memories(), l);
      }
    } else {
      ret, pend := FaultIn(m, l, write, flags, luck);
      GrantsOne(old(m.pt), m.pt[l], l, flags);
    }
  }

  /** Two spaces have a page in slot 1, which is in memory, and there is no free frame. */
  ghost predicate FullMemory(s: State) {
    && s.pt == map[Loc(0, 5) := Swapped(1), Loc(1, 5) := Swapped(1)]
    && s.ref == [0] && s.swap == [true] && s.index == [1] && s.act == [true] && s.dirty == [false] && s.free == {}
    && |s.mem_map| == |s.disk| == 1024 && s.mem_map[1] == 2 && s.mem == [s.disk[1]]
    && (forall o :: 2 <= o < 1024 ==> s.mem_map[o] == SWAP_UNUSED)
    && s.active == [0] && s.inactive == [] && s.cache == map[1 := 0]
    && |s.hash| == HASH_LIST_SIZE
    && (forall i :: 0 <= i < HASH_LIST_SIZE ==> s.hash[i] == if i == Hash(1) then [0] else [])
  }

  lemma {:induction false} FullMemoryCounts(s: State)
    requires FullMemory(s)
    ensures RefOk(s.pt, s.ref, None) && UsedOk(s.pt, s.swap, s.free, {}, None)
    ensures SlotOk(s.pt, s.mem_map, s.cache)
  {
    var one := HoldsOf(s.pt, 1);
    assert one == {Loc(0, 5), Loc(1, 5)};
    forall o: nat | o != 1
      ensures HoldsOf(s.pt, o) == {}
    {
    }
    assert MapsOf(s.pt, 0) == {};
  }

  lemma {:induction false} FullMemoryInv(s: State)
    requires FullMemory(s)
    ensures Inv(s, {}, None, None) && SharedSwapped(s.pt, s.swap, s.index, Loc(0, 5))
  {
    FullMemoryCounts(s);
    hide Hash, RefOk, UsedOk, SlotOk;
    assert ObjOf(s.swap, s.index, s.pt[Loc(0, 5)]) == ObjOf(s.swap, s.index, s.pt[Loc(1, 5)]) == Slot(1);
  }

  /** A store for which do_pgfault returns 0 in vain. */
  method StoreInVain(m: Memory) returns (ret: int)
    requires FullMemory(m.St()) && m.Counted()
    modifies m
    ensures ret == 0 && !Serves(m.pt, Loc(0, 5), true)
  {
    hide Inv, SharedSwapped, Grants;
    FullMemoryInv(m.St());
    ghost var pend;
    ret, pend := DoPgfault(m, Loc(0, 5), true, true, VM_READ | VM_WRITE, Luck(true, true, true, true));
  }

  // ---------- loads and stores of a process ----------

  /** The load itself, which sets PTE_A. */
  method Load(m: Memory, l: Loc) returns (c: Content)
    requires Inv(m.St(), {}, None, None) && m.Counted() && IsPresent(m.pt, l)
    modifies m`pt
    ensures m.Counted()
    ensures Inv(m.St(), {}, None, None)
    ensures m.Memories() == old(m.Memories()) && l in m.Memories() && c == m.Memories()[l]
    ensures old(m.pt)[l].frame < |m.mem| && c == m.mem[old(m.pt)[l].frame]
    ensures m.pt == old(m.pt)[l := old(m.pt)[l].(a := true)]
  {
    hide Inv, View;
    var p := m.pt[l];
    PresentOk(m.St(), {}, None, None, l);
    PresentVal(m.St(), l);
    SetBits(m.St(), {}, None, None, None, l, p.(a := true));
    m.pt := m.pt[l := p.(a := true)];
    c := m.mem[p.frame];
  }

  /** A load, with the page fault it may raise; None if the process cannot do it now. */
  method LoadAccess(m: Memory, l: Loc, in_area: bool, flags: bv32, luck: Luck) returns (r: Option<Content>)
    requires Inv(m.St(), {}, None, None) && m.Counted() && l.space < MAX_SPACES && flags & VM_SHARE == 0
    modifies m
    ensures m.Counted()
    ensures Inv(m.St(), {}, None, None)
    ensures m.Memories() == old(m.Memories()) || Gained(old(m.Memories()), m.Memories(), l)
    ensures r.Some? ==> l in m.Memories() && r.value == m.Memories()[l]
    ensures r == None ==> m.Memories() == old(m.Memories())
    ensures Grants(old(m.pt), m.pt, l, in_area, flags)
    ensures r.Some? <==> Succeeds(old(m.St()), l, false, in_area, flags, luck)
    ensures r.Some? ==> l in m.pt && m.pt[l].Present? && m.pt[l].a
    ensures r.Some? && l !in old(m.pt) ==>
        exists f :: f in old(m.free) && f < |old(m.mem)| && r.value == old(m.mem)[f]
  {
    hide Inv, View, Alone, Gained;
    r := None;
    if !IsPresent(m.pt, l) {
      var ret;
      ghost var pend;
      ret, pend := DoPgfault(m, l, false, in_area, flags, luck);
      if ret != 0 {
        return;
      }
    }
    assert IsPresent(m.pt, l);
    ghost var f := m.pt[l].frame;
    var c := Load(m, l);
    assert f < |m.mem| && c == m.mem[f];
    r := Some(c);
  }

  /** A store, with the page fault it may raise: it changes its own page, or the process cannot do it now. */
  method StoreAccess(m: Memory, l: Loc, c: Content, in_area: bool, flags: bv32, luck: Luck) returns (done: bool)
    requires Inv(m.St(), {}, None, None) && m.Counted() && l.space < MAX_SPACES && flags & VM_SHARE == 0
    modifies m
    ensures m.Counted()
    ensures Inv(m.St(), {}, None, None)
    ensures m.Memories() == if done then old(m.Memories())[l := c] else old(m.Memories())
    ensures Grants(old(m.pt), m.pt, l, in_area, flags) && (done ==> IsWritable(m.pt, l))
    ensures done <==> Succeeds(old(m.St()), l, true, in_area, flags, luck)
    ensures done && l !in old(m.pt) ==> m.pt.Keys == old(m.pt).Keys + {l} && m.page_swap == old(m.page_swap)
    ensures done ==> m.pt[l].a && m.pt[l].d && m.pt[l].frame < |m.mem| && m.mem[m.pt[l].frame] == c
  {
    hide Inv, View, Alone;
    ghost var pend: Option<Loc> := None;
    ViewKeys(m.St());
    if !IsWritable(m.pt, l) {
      var ret;
      ret, pend := DoPgfault(m, l, true, in_area, flags, luck);
      if ret != 0 || !IsWritable(m.pt, l) {
        return false;
      }
    }
    Store(m.St(), {}, pend, l, c);
    var f := m.pt[l].frame;
    m.pt := m.pt[l := Present(f, true, true, true)];
    m.mem := m.mem[f := c];
    return true;
  }

  lemma {:induction false} PresentVal(s: State, l: Loc)
    requires l in s.pt && s.pt[l].Present? && s.pt[l].frame < |s.mem|
    ensures l in View(s) && View(s)[l] == s.mem[s.pt[l].frame]
  {
  }

  lemma {:induction false} ViewKeys(s: State)
    ensures View(s).Keys == s.pt.Keys
  {
  }

  // ---------- copy_range ----------

  /** page_insert at an entry that is zero, whose table is there. */
  method ShareFrame(m: Memory, to: Loc, p: Pte) returns (ret: int)
    requires Inv(m.St(), {}, None, None) && m.Counted() && p.Present? && p.frame < |m.page_ref| && p.frame !in m.free
    requires to.space < MAX_SPACES && to !in m.pt && Compatible(m.pt, m.page_swap, m.page_index, to, p)
    modifies m
    ensures m.Counted()
    ensures Inv(m.St(), {}, None, None)
    ensures ret == 0 && p.frame < |old(m.mem)| && m.Memories() == old(m.Memories())[to := old(m.mem)[p.frame]]
    ensures m.pt == old(m.pt)[to := p]
  {
    hide Inv, Compatible, View;
    SizesOf(m.St(), {}, None, None);
    Pin(m.St(), {}, None, p.frame);
    m.page_ref := m.page_ref[p.frame := m.page_ref[p.frame] + 1];
    AddPresent(m.St(), {}, None, to, p);
    m.pt := m.pt[to := p];
    assert {} - {p.frame} == {};
    ret := 0;
  }

  /** copy_range for a page that is in memory: both entries map its frame afterwards, and neither is writable. */
  method CopyPresent(m: Memory, from: Loc, to: Loc)
    requires Inv(m.St(), {}, None, None) && m.Counted() && from in m.pt && m.pt[from].Present?
    requires to !in m.pt && to.va == from.va && to.space < MAX_SPACES
    modifies m
    ensures m.Counted()
    ensures Inv(m.St(), {}, None, None)
    ensures from in old(m.Memories()) && m.Memories() == old(m.Memories())[to := old(m.Memories())[from]]
    ensures NoWider(old(m.pt), m.pt, to.space, to.va, to.va + 1) && !IsWritable(m.pt, to)
  {
    hide Inv, Compatible, View;
    var page, w, a, d := m.pt[from].frame, m.pt[from].w, m.pt[from].a, m.pt[from].d;
    PresentOk(m.St(), {}, None, None, from);
    PresentVal(m.St(), from);
    if w {
      var same := PageInsert(m, from, Present(page, false, a, d), true, {}, None);
      assert {} - {page} == {};
    }
    var p := Present(page, false, false, false);
    ForkCompatible(m.St(), {}, None, None, from, to, p);
    PresentOk(m.St(), {}, None, None, from);
    var ret := ShareFrame(m, to, p);
  }

  /** copy_range for a page in swap space: both entries hold the slot afterwards. */
  method CopySwapped(m: Memory, from: Loc, to: Loc)
    requires Inv(m.St(), {}, None, None) && m.Counted() && from in m.pt && m.pt[from].Swapped?
    requires to !in m.pt && to.va == from.va && to.space < MAX_SPACES
    modifies m
    ensures m.Counted()
    ensures Inv(m.St(), {}, None, None)
    ensures from in old(m.Memories()) && m.Memories() == old(m.Memories())[to := old(m.Memories())[from]]
    ensures NoWider(old(m.pt), m.pt, to.space, to.va, to.va + 1) && !IsWritable(m.pt, to)
  {
    hide Inv, Compatible;
    var entry := m.pt[from].slot;
    SlotBound(m.St(), {}, None, None, from, entry);
    ForkCompatible(m.St(), {}, None, None, from, to, Swapped(entry));
    AddSwapped(m.St(), {}, None, None, to, entry);
    m.SwapDuplicate(entry);
    m.pt := m.pt[to := Swapped(entry)];
  }

  /** One page of copy_range for fork. */
  method CopyPte(m: Memory, from: Loc, to: Loc, table: bool) returns (ret: int)
    requires Inv(m.St(), {}, None, None) && m.Counted() && from in m.pt
    requires to !in m.pt && to.va == from.va && to.space < MAX_SPACES
    modifies m
    ensures m.Counted()
    ensures Inv(m.St(), {}, None, None)
    ensures ret == if table then 0 else -E_NO_MEM
    ensures ret != 0 ==> m.St() == old(m.St())
    ensures ret == 0 ==> from in old(m.Memories()) && m.Memories() == old(m.Memories())[to := old(m.Memories())[from]]
    ensures NoWider(old(m.pt), m.pt, to.space, to.va, to.va + 1) && !IsWritable(m.pt, to)
  {
    hide Inv, View;
    var got := GetPte(m, to, table);
    if !got {
      return -E_NO_MEM;
    }
    if m.pt[from].Present? {
      CopyPresent(m, from, to);
    } else {
      CopySwapped(m, from, to);
    }
    ret := 0;
  }

  /** What fork does: the pages of the range up to `end` are copied to the new space, and nothing else changes. */
  ghost predicate Forked(a: map<Loc, Content>, b: map<Loc, Content>, from: nat, to: nat, start: nat, end: nat) {
    && (forall l :: l in b <==> l in a || (l.space == to && start <= l.va < end && Loc(from, l.va) in a))
    && (forall l :: l in a ==> l in b && b[l] == a[l])
    && (forall va :: start <= va < end && Loc(from, va) in a ==> Loc(to, va) in b && b[Loc(to, va)] == a[Loc(from, va)])
  }

  lemma {:induction false} ForkedNext(a: map<Loc, Content>, b: map<Loc, Content>, b': map<Loc, Content>, from: nat,
                                      to: nat, start: nat, va: nat)
    requires Forked(a, b, from, to, start, va) && start <= va && from != to
    requires if Loc(from, va) in b then b' == b[Loc(to, va) := b[Loc(from, va)]] && Loc(to, va) !in a else b' == b
    ensures Forked(a, b', from, to, start, va + 1)
  {
  }

  /** No entry in the range is writable. */
  ghost predicate ReadOnly(pt: Table, space: nat, start: nat, end: nat) {
    forall va :: start <= va < end ==> !IsWritable(pt, Loc(space, va))
  }

  lemma {:induction false} NoWiderNone(pt: Table, space: nat, start: nat, end: nat)
    ensures NoWider(pt, pt, space, start, end)
    ensures (forall va :: start <= va < end ==> Loc(space, va) !in pt) ==> ReadOnly(pt, space, start, end)
  {
  }

  lemma {:induction false} NoWiderNext(pt: Table, pt1: Table, pt2: Table, space: nat, start: nat, end: nat, va: nat)
    requires NoWider(pt, pt1, space, start, end) && ReadOnly(pt1, space, start, end)
    requires NoWider(pt1, pt2, space, va, va + 1) && start <= va < end && !IsWritable(pt2, Loc(space, va))
    ensures NoWider(pt, pt2, space, start, end) && ReadOnly(pt2, space, start, end)
  {
    forall x | start <= x < end
      ensures !IsWritable(pt2, Loc(space, x))
    {
      assert x != va ==> !IsWritable(pt1, Loc(space, x));
    }
  }

  /** For each page of the range that is there get_pte has a table, or can make one. */
  ghost predicate NoneMissing(pt: Table, from: nat, start: nat, end: nat, missing: set<nat>) {
    forall va: nat :: start <= va < end && Loc(from, va) in pt ==> va !in missing
  }

  /** copy_range of a private range: the child's memory is the parent's, up to the page at which it failed. */
  method CopyRange(m: Memory, to: nat, from: nat, start: nat, end: nat, missing: set<nat>)
    returns (ret: int, upto: nat)
    requires Inv(m.St(), {}, None, None) && m.Counted() && start < end && to != from && to < MAX_SPACES
    requires forall va :: start <= va < end ==> Loc(to, va) !in m.pt
    modifies m
    ensures m.Counted()
    ensures Inv(m.St(), {}, None, None)
    ensures ret in {0, -E_NO_MEM} && start <= upto <= end && (ret == 0 ==> upto == end)
    ensures ret == 0 <==> NoneMissing(old(m.pt), from, start, end, missing)
    ensures ret != 0 ==> upto in missing && NoneMissing(old(m.pt), from, start, upto, missing)
    ensures Forked(old(m.Memories()), m.Memories(), from, to, start, upto)
    ensures NoWider(old(m.pt), m.pt, to, start, end)
    ensures ReadOnly(m.pt, to, start, end)
  {
    hide Inv, Forked, View, NoWider, ReadOnly;
    ViewKeys(m.St());
    NoWiderNone(m.pt, to, start, end);
    ghost var a := m.Memories();
    var va := start;
    ForkedNone(a, from, to, start);
    while va < end
      invariant m.Counted()
      invariant Inv(m.St(), {}, None, None)
      invariant start <= va <= end
      invariant Forked(a, m.Memories(), from, to, start, va)
      invariant NoneMissing(old(m.pt), from, start, va, missing)
      invariant forall x :: Loc(from, x) in m.pt <==> Loc(from, x) in old(m.pt)
      invariant NoWider(old(m.pt), m.pt, to, start, end)
      invariant ReadOnly(m.pt, to, start, end)
    {
      ghost var b, pt1 := m.Memories(), m.pt;
      ViewKeys(m.St());
      if Loc(from, va) in m.pt {
        ForkedTarget(a, b, from, to, start, va);
        ret := CopyPte(m, Loc(from, va), Loc(to, va), va !in missing);
        ViewKeys(m.St());
        NoWiderNext(old(m.pt), pt1, m.pt, to, start, end, va);
        if ret != 0 {
          return -E_NO_MEM, va;
        }
      }
      ForkedNext(a, b, m.Memories(), from, to, start, va);
      va := va + 1;
    }
    return 0, end;
  }

  lemma {:induction false} ForkedNone(a: map<Loc, Content>, from: nat, to: nat, start: nat)
    ensures Forked(a, a, from, to, start, start)
  {
  }

  lemma {:induction false} ForkedTarget(a: map<Loc, Content>, b: map<Loc, Content>, from: nat, to: nat, start: nat,
                                        va: nat)
    requires Forked(a, b, from, to, start, va) && Loc(to, va) !in a
    ensures Loc(to, va) !in b
  {
  }

  lemma {:induction false} HeldUnmapped(s: State, held: set<nat>, pin: Option<nat>, pend: Option<Loc>, l: Loc, f: nat)
    requires Inv(s, held, pin, pend) && f in held
    ensures l in s.pt ==> !Maps(s.pt[l], f)
  {
    assert l in s.pt && Maps(s.pt[l], f) ==> l in MapsOf(s.pt, f);
  }
}
