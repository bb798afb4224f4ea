/**
 Address spaces: the areas of `Vmm` together with the pages of `Fault`. Pages are only where areas are, and
 writable only where the area says so; so what an operation does to the areas it does to the whole memory.
 */
module Spaces {
  import opened Areas
  import opened Defs
  import opened Fault
  import opened Lists
  import opened Paging
  import opened PagingSteps
  import opened RbLinks
  import opened RbShapes
  import opened RbTree
  import opened Swap
  import opened Vmm

  /** The pages of `space` lie in the areas `s`, those that are writable in areas with VM_WRITE. */
  ghost predicate InAreas(pt: Table, space: nat, s: seq<Area>) {
    forall va: nat :: Loc(space, va) in pt ==>
      Flags(s, va * PGSIZE).Some? && (Writable(pt[Loc(space, va)]) ==> Flags(s, va * PGSIZE).value & VM_WRITE != 0)
  }

  ghost predicate Private(s: seq<Area>) {
    forall x :: Flags(s, x).Some? ==> Flags(s, x).value & VM_SHARE == 0
  }

  // ---------- unmapping ----------

  /** The pages of `space` that start in the ranges are gone, and nothing else changes. */
  ghost predicate Gone(a: map<Loc, Content>, b: map<Loc, Content>, space: nat, ranges: seq<(int, int)>) {
    && (forall l :: l in b <==> l in a && !(l.space == space && Covers(ranges, l.va * PGSIZE)))
    && (forall l :: l in b ==> b[l] == a[l])
  }

  /** The pages of `space` in [start, end) are gone, and nothing else changes. */
  ghost predicate Emptied(a: map<Loc, Content>, b: map<Loc, Content>, space: nat, start: int, end: int) {
    && (forall l :: l in b <==> l in a && !(l.space == space && start <= l.va * PGSIZE < end))
    && (forall l :: l in b ==> b[l] == a[l])
  }

  /** The pages of `space` that hold an address of the range are gone, and nothing else changes. */
  ghost predicate PagesEmptied(a: map<Loc, Content>, b: map<Loc, Content>, space: nat, addr: int, len: int) {
    && (forall l :: l in b <==> l in a && !(l.space == space && OnPages(l.va * PGSIZE, addr, len)))
    && (forall l :: l in b ==> b[l] == a[l])
  }

  lemma {:induction false} EmptiedPages(a: map<Loc, Content>, b: map<Loc, Content>, space: nat, addr: int, len: int)
    requires Emptied(a, b, space, RoundDown(addr), RoundUp((addr + len) % TWO_32))
    ensures Plain(addr, len) ==> PagesEmptied(a, b, space, addr, len)
  {
    if Plain(addr, len) {
      hide RoundDown, RoundUp, OnPages;
      forall l: Loc
        ensures OnPages(l.va * PGSIZE, addr, len) <==>
                RoundDown(addr) <= l.va * PGSIZE < RoundUp((addr + len) % TWO_32)
      {
        OnPagesIs(addr, len, l.va * PGSIZE);
      }
    }
  }

  lemma {:induction false} GoneNext(a: map<Loc, Content>, b: map<Loc, Content>, c: map<Loc, Content>, space: nat,
                                    ranges: seq<(int, int)>, r: (int, int))
    requires Gone(a, b, space, ranges) && UserPages(r.0, r.1)
    requires forall l :: l in c <==> l in b && !(l.space == space && r.0 / PGSIZE <= l.va < r.1 / PGSIZE)
    requires forall l :: l in c ==> c[l] == b[l]
    ensures Gone(a, c, space, ranges + [r])
  {
    forall l: Loc
      ensures Covers(ranges + [r], l.va * PGSIZE) <==>
          Covers(ranges, l.va * PGSIZE) || r.0 / PGSIZE <= l.va < r.1 / PGSIZE
    {
      CoversNext(ranges, r, l.va * PGSIZE);
    }
  }

  lemma {:induction false} CoversNext(ranges: seq<(int, int)>, r: (int, int), x: int)
    ensures Covers(ranges + [r], x) <==> Covers(ranges, x) || r.0 <= x < r.1
  {
    var all := ranges + [r];
    assert all[|ranges|] == r;
    assert forall i :: 0 <= i < |ranges| ==> all[i] == ranges[i];
  }

  lemma {:induction false} NoWiderAgain(pt: Table, pt1: Table, pt2: Table, space: nat, start: nat)
    requires NoWider(pt, pt1, space, 0, 0) && NoWider(pt1, pt2, space, start, start)
    ensures NoWider(pt, pt2, space, 0, 0)
  {
  }

  /** The calls of unmap_range for the ranges that mm_unmap has cleared. */
  method UnmapRanges(m: Memory, space: nat, ranges: seq<(int, int)>)
    requires Inv(m.St(), {}, None, None) && m.Counted() && PageRanges(ranges)
    modifies m
    ensures ranges == [] ==> m.St() == old(m.St())
    ensures m.Counted()
    ensures Inv(m.St(), {}, None, None)
    ensures Gone(old(m.Memories()), m.Memories(), space, ranges)
    ensures NoWider(old(m.pt), m.pt, space, 0, 0)
  {
    hide Inv, View, NoWider, Gone;
    ghost var a := m.Memories();
    GoneNone(a, space);
    NoWiderNone(m.pt, space, 0, 0);
    for i := 0 to |ranges|
      invariant m.Counted()
      invariant Inv(m.St(), {}, None, None)
      invariant Gone(a, m.Memories(), space, ranges[..i])
      invariant i == 0 ==> m.St() == old(m.St())
      invariant NoWider(old(m.pt), m.pt, space, 0, 0)
    {
      ghost var b, pt1 := m.Memories(), m.pt;
      var r := ranges[i];
      UnmapRange(m, space, r.0 / PGSIZE, r.1 / PGSIZE);
      NoWiderAgain(old(m.pt), pt1, m.pt, space, r.0 / PGSIZE);
      GoneNext(a, b, m.Memories(), space, ranges[..i], r);
      assert ranges[..i] + [r] == ranges[..i + 1];
    }
    assert ranges[..|ranges|] == ranges;
  }

  lemma {:induction false} GoneNone(a: map<Loc, Content>, space: nat)
    ensures Gone(a, a, space, [])
  {
  }

  /** Where no page is outside of the areas, clearing what was mapped in a range clears the range. */
  lemma {:induction false} GoneEmptied(s: State, s': State, space: nat, ranges: seq<(int, int)>, areas: seq<Area>,
                                       start: int, end: int)
    requires InAreas(s.pt, space, areas) && ClearsMapped(ranges, areas, start, end)
    requires Gone(View(s), View(s'), space, ranges)
    ensures Emptied(View(s), View(s'), space, start, end)
  {
    ViewKeys(s);
    forall l: Loc | l in View(s) && l.space == space
      ensures Covers(ranges, l.va * PGSIZE) <==> start <= l.va * PGSIZE < end
    {
      assert l == Loc(space, l.va);
    }
  }

  /** An address outside of [start, end) is mapped as before. */
  ghost predicate SameOutside(areas: seq<Area>, areas': seq<Area>, start: int, end: int) {
    forall x :: start <= x < end || Flags(areas', x) == Flags(areas, x)
  }

  /** After a range has been emptied the areas there may change. */
  lemma {:induction false} EmptiedIn(s: State, s': State, space: nat, areas: seq<Area>, areas': seq<Area>, start: int,
                                     end: int)
    requires InAreas(s.pt, space, areas) && SameOutside(areas, areas', start, end)
    requires Emptied(View(s), View(s'), space, start, end) && NoWider(s.pt, s'.pt, space, 0, 0)
    ensures InAreas(s'.pt, space, areas')
  {
    ViewKeys(s');
    forall va: nat | Loc(space, va) in s'.pt
      ensures Flags(areas', va * PGSIZE) == Flags(areas, va * PGSIZE)
    {
      assert Loc(space, va) in View(s');
    }
  }

  lemma {:induction false} SubtractedOutside(areas: seq<Area>, areas': seq<Area>, start: int, end: int)
    requires Subtracted(areas, areas', start, end)
    ensures SameOutside(areas, areas', start, end)
  {
  }

  lemma {:induction false} RemappedOutside(areas: seq<Area>, areas': seq<Area>, start: int, end: int, flags: bv32)
    requires Remapped(areas, areas', start, end, flags)
    ensures SameOutside(areas, areas', start, end)
  {
  }

  /**
   mm_unmap with its calls of unmap_range: the areas and the pages of the range are gone, all others are as before.
   */
  method Unmap(mm: Mm, m: Memory, space: nat, addr: int, len: int, memory: bool) returns (ret: int)
    requires mm.Valid() && Paged(mm.Areas()) && 0 <= addr < TWO_32 && 0 <= len < TWO_32
    requires Inv(m.St(), {}, None, None) && m.Counted() && InAreas(m.pt, space, mm.Areas())
    modifies m, mm, mm.Tree()`shape, mm.pool`red, mm.pool`left, mm.pool`right, mm.pool`parent, mm.pool`vm_start
    modifies mm.pool`vm_end
    ensures mm.Valid()
    ensures mm.TreeKept()
    ensures Paged(mm.Areas()) && ret in {0, -E_INVAL, -E_NO_MEM}
    ensures ret == -E_INVAL <==> !UserAccess(RoundDown(addr), RoundUp((addr + len) % TWO_32))
    ensures ret != 0 ==> mm.Areas() == old(mm.Areas()) && m.St() == old(m.St())
    ensures ret == 0 ==> Subtracted(old(mm.Areas()), mm.Areas(), RoundDown(addr), RoundUp((addr + len) % TWO_32))
    ensures ret != -E_INVAL ==>
      (ret == -E_NO_MEM <==> !memory && Splits(old(mm.Areas()), RoundDown(addr), RoundUp((addr + len) % TWO_32)))
    ensures Plain(addr, len) ==>
      && (ret == -E_INVAL <==> !InUser(addr, len))
      && (ret == 0 ==> PagesMapped(old(mm.Areas()), mm.Areas(), addr, len, None)
                       && PagesEmptied(old(m.Memories()), m.Memories(), space, addr, len))
    ensures ret == 0 ==>
        Emptied(old(m.Memories()), m.Memories(), space, RoundDown(addr), RoundUp((addr + len) % TWO_32))
    ensures m.Counted()
    ensures Inv(m.St(), {}, None, None)
    ensures InAreas(m.pt, space, mm.Areas()) && NoWider(old(m.pt), m.pt, space, 0, 0)
  {
    hide Inv, View, NoWider, InAreas, Gone, Emptied, Subtracted, ClearsMapped, PageRanges, Paged, RoundDown, RoundUp;
    hide Ordered, At, RedBlack, Inorder, Mm.TreeHolds, Plain, InUser, PagesMapped, PagesEmptied, Splits;
    ghost var s, areas := m.St(), mm.Areas();
    ghost var start, end := RoundDown(addr), RoundUp((addr + len) % TWO_32);
    NoWiderNone(m.pt, space, 0, 0);
    var cleared;
    ret, cleared := mm.MmUnmap(addr, len, memory);
    assert m.St() == s;
    if ret == 0 {
      ghost var areas' := mm.Areas();
      UnmapRanges(m, space, cleared);
      assert mm.Areas() == areas';
      SubtractedOutside(areas, areas', start, end);
      GoneEmptied(s, m.St(), space, cleared, areas, start, end);
      EmptiedIn(s, m.St(), space, areas, areas', start, end);
      EmptiedPages(View(s), m.Memories(), space, addr, len);
    }
  }

  /** mm_brk: on success the range is mapped for reading and writing, and its pages are to be filled anew. */
  method Brk(mm: Mm, m: Memory, space: nat, addr: int, len: int, split: bool, memory: bool) returns (ret: int)
    requires mm.Valid() && Paged(mm.Areas()) && 0 <= addr < TWO_32 && 0 <= len < TWO_32
    requires Inv(m.St(), {}, None, None) && m.Counted() && InAreas(m.pt, space, mm.Areas())
    modifies m, mm, mm.Tree()`shape, mm.pool`red, mm.pool`left, mm.pool`right, mm.pool`parent, mm.pool`vm_start
    modifies mm.pool`vm_end
    ensures mm.Valid()
    ensures mm.TreeKept()
    ensures Paged(mm.Areas()) && ret in {0, -E_INVAL, -E_NO_MEM}
    ensures ret == -E_INVAL <==> !UserAccess(RoundDown(addr), RoundUp((addr + len) % TWO_32))
    ensures ret == -E_INVAL ==> mm.Areas() == old(mm.Areas()) && m.St() == old(m.St())
    ensures ret == -E_NO_MEM ==>
              || (mm.Areas() == old(mm.Areas()) && m.St() == old(m.St()))
              || (Subtracted(old(mm.Areas()), mm.Areas(), RoundDown(addr), RoundUp((addr + len) % TWO_32))
                  && Emptied(old(m.Memories()), m.Memories(), space, RoundDown(addr), RoundUp((addr + len) % TWO_32)))
    ensures ret == 0 ==>
      Remapped(old(mm.Areas()), mm.Areas(), RoundDown(addr), RoundUp((addr + len) % TWO_32), VM_READ | VM_WRITE)
    ensures ret != -E_INVAL ==>
      (ret == -E_NO_MEM <==>
       BrkFails(old(mm.Areas()), RoundDown(addr), RoundUp((addr + len) % TWO_32), split, memory))
    ensures Plain(addr, len) ==>
      && (ret == -E_INVAL <==> !InUser(addr, len))
      && (ret == 0 ==> PagesMapped(old(mm.Areas()), mm.Areas(), addr, len, Some(VM_READ | VM_WRITE))
                       && PagesEmptied(old(m.Memories()), m.Memories(), space, addr, len))
    ensures ret == 0 ==>
        Emptied(old(m.Memories()), m.Memories(), space, RoundDown(addr), RoundUp((addr + len) % TWO_32))
    ensures m.Counted()
    ensures Inv(m.St(), {}, None, None)
    ensures InAreas(m.pt, space, mm.Areas()) && NoWider(old(m.pt), m.pt, space, 0, 0)
  {
    hide Inv, View, NoWider, InAreas, Gone, Emptied, Subtracted, ClearsMapped, PageRanges, Paged, RoundDown, RoundUp;
    hide Remapped;
    hide Ordered, At, RedBlack, Inorder, Mm.TreeHolds, Plain, InUser, PagesMapped, PagesEmptied, BrkFails;
    ghost var s, areas := m.St(), mm.Areas();
    ghost var start, end := RoundDown(addr), RoundUp((addr + len) % TWO_32);
    NoWiderNone(m.pt, space, 0, 0);
    var cleared;
    ret, cleared := mm.MmBrk(addr, len, split, memory);
    assert m.St() == s;
    ghost var areas' := mm.Areas();
    UnmapRanges(m, space, cleared);
    assert mm.Areas() == areas';
    if ret == 0 {
      RemappedOutside(areas, areas', start, end, VM_READ | VM_WRITE);
    } else if Clears(areas, areas', cleared, start, end) {
      SubtractedOutside(areas, areas', start, end);
    }
    if ret == 0 || Clears(areas, areas', cleared, start, end) {
      GoneEmptied(s, m.St(), space, cleared, areas, start, end);
      EmptiedIn(s, m.St(), space, areas, areas', start, end);
      EmptiedPages(View(s), m.Memories(), space, addr, len);
    }
  }

  /** Where nothing was mapped there is no page. */
  lemma {:induction false} MappedIn(pt: Table, space: nat, areas: seq<Area>, areas': seq<Area>, start: int, end: int,
                                    flags: bv32)
    requires InAreas(pt, space, areas) && Unmapped(areas, start, end) && Remapped(areas, areas', start, end, flags)
    ensures InAreas(pt, space, areas')
  {
    forall va: nat | Loc(space, va) in pt
      ensures Flags(areas', va * PGSIZE) == Flags(areas, va * PGSIZE)
    {
      assert Flags(areas, va * PGSIZE).Some?;
    }
  }

  /** mm_map: the new area has no pages, and all others are as before. */
  method Map(mm: Mm, m: Memory, space: nat, addr: int, len: int, flags: bv32, memory: bool) returns (ret: int)
    requires mm.Valid() && Paged(mm.Areas()) && 0 <= addr < TWO_32 && 0 <= len < TWO_32
    requires Inv(m.St(), {}, None, None) && m.Counted() && InAreas(m.pt, space, mm.Areas())
    modifies mm, mm.Tree()`shape, mm.pool`red, mm.pool`left, mm.pool`right, mm.pool`parent
    ensures mm.Valid()
    ensures mm.TreeKept()
    ensures Paged(mm.Areas()) && ret in {0, -E_INVAL, -E_NO_MEM}
    ensures ret != 0 ==> mm.Areas() == old(mm.Areas())
    ensures ret == 0 ==>
      Remapped(old(mm.Areas()), mm.Areas(), RoundDown(addr), RoundUp((addr + len) % TWO_32), flags & !VM_SHARE)
    ensures var start, end := RoundDown(addr), RoundUp((addr + len) % TWO_32);
            ret == -E_INVAL <==> !(UserAccess(start, end) && Unmapped(old(mm.Areas()), start, end))
    ensures (ret == 0 ==> memory) && (ret == -E_NO_MEM ==> !memory)
    ensures Plain(addr, len) ==>
      && (ret == -E_INVAL <==> !(InUser(addr, len) && PagesUnmapped(old(mm.Areas()), addr, len)))
      && (ret == 0 ==> PagesMapped(old(mm.Areas()), mm.Areas(), addr, len, Some(flags & !VM_SHARE)))
    ensures InAreas(m.pt, space, mm.Areas())
  {
    hide Inv, View, NoWider, InAreas, Paged, RoundDown, RoundUp, Remapped, Unmapped;
    hide Ordered, At, RedBlack, Inorder, Mm.TreeHolds, Plain, InUser, PagesMapped, PagesUnmapped;
    ghost var areas := mm.Areas();
    var vma;
    ret, vma := mm.MmMap(addr, len, flags, memory);
    if ret == 0 {
      MappedIn(m.pt, space, areas, mm.Areas(), RoundDown(addr), RoundUp((addr + len) % TWO_32), flags & !VM_SHARE);
    }
  }

  // ---------- loads and stores ----------

  /** What do_pgfault accepts of an area that holds `x`: all of it but the lowest page of a stack. */
  predicate FaultsIn(a: Area, x: int, flags: bv32) {
    a.Holds(x) && a.flags == flags && (flags & VM_STACK != 0 ==> a.start + PGSIZE <= x)
  }

  ghost predicate Faultable(s: seq<Area>, x: int, flags: bv32) {
    exists i :: 0 <= i < |s| && FaultsIn(s[i], x, flags)
  }

  lemma {:induction false} FaultableFirst(s: seq<Area>, x: int, k: nat, flags: bv32)
    requires Ordered(s) && FirstEndingAfter(s, x, k)
    ensures Faultable(s, x, flags) <==> k < |s| && FaultsIn(s[k], x, flags)
  {
    if Faultable(s, x, flags) {
      var i :| 0 <= i < |s| && FaultsIn(s[i], x, flags);
      assert i >= k && forall j :: k < j < |s| ==> s[k].end <= s[j].start;
    }
  }

  /** Such an address is mapped with these flags, and so is the start of its page. */
  lemma {:induction false} FaultableFlags(s: seq<Area>, x: int, flags: bv32)
    requires Ordered(s) && Paged(s) && Faultable(s, x, flags)
    ensures Flags(s, x) == Some(flags) && Flags(s, x / PGSIZE * PGSIZE) == Some(flags)
  {
    var i :| 0 <= i < |s| && FaultsIn(s[i], x, flags);
    PagedAt(s, i);
    assert s[i].Holds(x / PGSIZE * PGSIZE);
    FlagsSome(s, i, x);
    FlagsSome(s, i, x / PGSIZE * PGSIZE);
  }

  /** The addresses of a page are mapped alike. */
  lemma {:induction false} PageFlags(s: seq<Area>, x: int)
    requires Ordered(s) && Paged(s)
    ensures Flags(s, x) == Flags(s, x / PGSIZE * PGSIZE)
  {
    if i: nat :| i < |s| && s[i].Holds(x) {
      PagedAt(s, i);
      assert s[i].Holds(x / PGSIZE * PGSIZE);
      FlagsSome(s, i, x);
      FlagsSome(s, i, x / PGSIZE * PGSIZE);
    } else {
      forall i | 0 <= i < |s|
        ensures !s[i].Holds(x / PGSIZE * PGSIZE)
      {
        PagedAt(s, i);
        assert !s[i].Holds(x);
      }
      FlagsNone(s, x);
      FlagsNone(s, x / PGSIZE * PGSIZE);
    }
  }

  /** The beginning of do_pgfault: the area of the address, and the guard page of a stack. */
  method FaultArea(mm: Mm, addr: int) returns (in_area: bool, flags: bv32)
    requires mm.Valid()
    modifies mm`mmap_cache
    ensures mm.Valid()
    ensures mm.Areas() == old(mm.Areas())
    ensures in_area ==> Faultable(mm.Areas(), addr, flags)
    ensures !in_area ==> flags == 0 && forall fl :: !Faultable(mm.Areas(), addr, fl)
  {
    hide Ordered, At, RedBlack, Inorder, Mm.TreeHolds, Faultable;
    var vma;
    ghost var k;
    vma, k := mm.FindVma(addr);
    forall fl
      ensures Faultable(mm.Areas(), addr, fl) <==> k < |mm.Areas()| && FaultsIn(mm.Areas()[k], addr, fl)
    {
      FaultableFirst(mm.Areas(), addr, k, fl);
    }
    if vma == null || vma.vm_start > addr {
      return false, 0;
    }
    assert mm.Areas()[k] == Area(vma.vm_start, vma.vm_end, vma.vm_flags);
    if vma.vm_flags & VM_STACK != 0 && addr < vma.vm_start + PGSIZE {
      return false, 0;
    }
    return true, vma.vm_flags;
  }

  /** When an access succeeds: the page is there as it has to be, or the fault is served in the area of the address. */
  ghost predicate UserSucceeds(s: State, areas: seq<Area>, space: nat, addr: nat, write: bool, luck: Luck) {
    var l, flags := Loc(space, addr / PGSIZE), Flags(areas, addr);
    Serves(s.pt, l, write)
    || (flags.Some? && Faultable(areas, addr, flags.value) && MayMap(s, l, write, flags.value, luck))
  }

  lemma {:induction false} SucceedsIn(s: State, areas: seq<Area>, space: nat, addr: nat, write: bool, luck: Luck,
                                      in_area: bool, flags: bv32)
    requires in_area ==> Faultable(areas, addr, flags) && Flags(areas, addr) == Some(flags)
    requires !in_area ==> Serves(s.pt, Loc(space, addr / PGSIZE), write) || forall fl :: !Faultable(areas, addr, fl)
    ensures UserSucceeds(s, areas, space, addr, write, luck) <==>
            Succeeds(s, Loc(space, addr / PGSIZE), write, in_area, flags, luck)
  {
  }

  /** A page fault at a page of an area keeps the pages in their areas. */
  lemma {:induction false} GrantsIn(pt: Table, pt': Table, l: Loc, s: seq<Area>, in_area: bool, flags: bv32)
    requires InAreas(pt, l.space, s) && Grants(pt, pt', l, in_area, flags)
    requires in_area ==> Flags(s, l.va * PGSIZE) == Some(flags)
    ensures InAreas(pt', l.space, s)
  {
  }

  /**
   A load of a process at `addr`: only from mapped memory, and it changes nothing but for a page that was not there.
   */
  method UserLoad(mm: Mm, m: Memory, space: nat, addr: int, luck: Luck) returns (r: Option<Content>)
    requires mm.Valid() && Paged(mm.Areas()) && Private(mm.Areas()) && 0 <= addr < TWO_32 && space < MAX_SPACES
    requires Inv(m.St(), {}, None, None) && m.Counted() && InAreas(m.pt, space, mm.Areas())
    modifies m, mm`mmap_cache
    ensures mm.Valid()
    ensures mm.Areas() == old(mm.Areas())
    ensures m.Counted()
    ensures Inv(m.St(), {}, None, None)
    ensures InAreas(m.pt, space, mm.Areas()) && NoWider(old(m.pt), m.pt, space, addr / PGSIZE, addr / PGSIZE + 1)
    ensures m.Memories() == old(m.Memories()) || Gained(old(m.Memories()), m.Memories(), Loc(space, addr / PGSIZE))
    ensures r.Some? ==> Loc(space, addr / PGSIZE) in m.Memories() && r.value == m.Memories()[Loc(space, addr / PGSIZE)]
    ensures r.Some? ==> Flags(mm.Areas(), addr).Some?
    ensures r.Some? <==> UserSucceeds(old(m.St()), mm.Areas(), space, addr, false, luck)
  {
    hide InAreas, Succeeds, UserSucceeds, Inv, View, NoWider, Gained, Paged, Flags, Faultable, Grants, Ordered, At;
    hide RedBlack, Inorder;
    hide Mm.TreeHolds;
    var l := Loc(space, addr / PGSIZE);
    ghost var st, pt, s := m.St(), m.pt, mm.Areas();
    var in_area, flags := false, 0;
    if !IsPresent(m.pt, l) {
      in_area, flags := FaultArea(mm, addr);
      if in_area {
        FaultableFlags(s, addr, flags);
      }
    }
    SucceedsIn(st, s, space, addr, false, luck, in_area, flags);
    r := LoadAccess(m, l, in_area, flags, luck);
    assert mm.Areas() == s;
    GrantsIn(pt, m.pt, l, s, in_area, flags);
    PageFlags(s, addr);
    ViewKeys(m.St());
    GrantsNoWider(pt, m.pt, l, in_area, flags);
  }

  lemma {:induction false} GrantsNoWider(pt: Table, pt': Table, l: Loc, in_area: bool, flags: bv32)
    requires Grants(pt, pt', l, in_area, flags)
    ensures NoWider(pt, pt', l.space, l.va, l.va + 1)
  {
  }

  /** The same for a store at a page of the areas `s`. */
  method StoreIn(m: Memory, l: Loc, c: Content, in_area: bool, flags: bv32, luck: Luck, ghost s: seq<Area>)
    returns (done: bool)
    requires Inv(m.St(), {}, None, None) && m.Counted() && l.space < MAX_SPACES && flags & VM_SHARE == 0
    requires InAreas(m.pt, l.space, s) && (in_area ==> Flags(s, l.va * PGSIZE) == Some(flags))
    modifies m
    ensures m.Counted()
    ensures Inv(m.St(), {}, None, None)
    ensures InAreas(m.pt, l.space, s) && NoWider(old(m.pt), m.pt, l.space, l.va, l.va + 1)
    ensures m.Memories() == if done then old(m.Memories())[l := c] else old(m.Memories())
    ensures done <==> Succeeds(old(m.St()), l, true, in_area, flags, luck)
    ensures done ==> Flags(s, l.va * PGSIZE).Some? && Flags(s, l.va * PGSIZE).value & VM_WRITE != 0
  {
    hide Inv, View, NoWider, Flags, Grants, Succeeds;
    ghost var pt := m.pt;
    done := StoreAccess(m, l, c, in_area, flags, luck);
    GrantsIn(pt, m.pt, l, s, in_area, flags);
    GrantsNoWider(pt, m.pt, l, in_area, flags);
    assert done ==> Loc(l.space, l.va) in m.pt && Writable(m.pt[Loc(l.space, l.va)]);
  }

  /** A store of a process at `addr`: only into memory mapped for writing, and it changes its own page or nothing. */
  method UserStore(mm: Mm, m: Memory, space: nat, addr: int, c: Content, luck: Luck) returns (done: bool)
    requires mm.Valid() && Paged(mm.Areas()) && Private(mm.Areas()) && 0 <= addr < TWO_32 && space < MAX_SPACES
    requires Inv(m.St(), {}, None, None) && m.Counted() && InAreas(m.pt, space, mm.Areas())
    modifies m, mm`mmap_cache
    ensures mm.Valid()
    ensures mm.Areas() == old(mm.Areas())
    ensures m.Counted()
    ensures Inv(m.St(), {}, None, None)
    ensures InAreas(m.pt, space, mm.Areas()) && NoWider(old(m.pt), m.pt, space, addr / PGSIZE, addr / PGSIZE + 1)
    ensures m.Memories() == if done then old(m.Memories())[Loc(space, addr / PGSIZE) := c] else old(m.Memories())
    ensures done <==> UserSucceeds(old(m.St()), mm.Areas(), space, addr, true, luck)
    ensures done ==> Flags(mm.Areas(), addr).Some? && Flags(mm.Areas(), addr).value & VM_WRITE != 0
  {
    hide InAreas, Succeeds, UserSucceeds, Inv, View, NoWider, Gained, Paged, Flags, Faultable, Grants, Ordered, At;
    hide RedBlack, Inorder;
    hide Mm.TreeHolds;
    var l := Loc(space, addr / PGSIZE);
    ghost var st, s := m.St(), mm.Areas();
    var in_area, flags := false, 0;
    if !IsWritable(m.pt, l) {
      in_area, flags := FaultArea(mm, addr);
      if in_area {
        FaultableFlags(s, addr, flags);
      }
    }
    SucceedsIn(st, s, space, addr, true, luck, in_area, flags);
    done := StoreIn(m, l, c, in_area, flags, luck, s);
    assert mm.Areas() == s;
    PageFlags(s, addr);
  }

  // ---------- fork and exit ----------

  /** Among the entries of other spaces there are no new ones, and none becomes writable. */
  ghost predicate OnlySpace(pt: Table, pt': Table, space: nat) {
    forall l :: l in pt' && l.space != space ==> l in pt && (Writable(pt'[l]) ==> Writable(pt[l]))
  }

  /** So what happens to one space keeps the pages of the others in their areas. */
  lemma {:induction false} OthersIn(pt: Table, pt': Table, space: nat, other: nat, s: seq<Area>)
    requires OnlySpace(pt, pt', space) && other != space && InAreas(pt, other, s)
    ensures InAreas(pt', other, s)
  {
  }

  lemma {:induction false} OnlySpaceNext(pt: Table, pt1: Table, pt2: Table, space: nat, start: nat, end: nat)
    requires OnlySpace(pt, pt1, space) && NoWider(pt1, pt2, space, start, end)
    ensures OnlySpace(pt, pt2, space)
  {
  }

  lemma {:induction false} OnlySpaceNone(pt: Table, space: nat)
    ensures OnlySpace(pt, pt, space)
  {
  }

  /** The extents of the areas. */
  function Extents(s: seq<Area>): seq<(int, int)> {
    seq(|s|, i requires 0 <= i < |s| => (s[i].start, s[i].end))
  }

  lemma {:induction false} FlagsHolds(s: seq<Area>, x: int)
    ensures Flags(s, x).Some? <==> exists i :: 0 <= i < |s| && s[i].Holds(x)
  {
    if s != [] {
      FlagsHolds(s[1..], x);
      if s[0].Holds(x) {
      } else if exists i :: 0 <= i < |s| && s[i].Holds(x) {
        var i :| 0 <= i < |s| && s[i].Holds(x);
        assert s[1..][i - 1] == s[i];
      } else {
        assert forall i :: 0 <= i < |s[1..]| ==> s[1..][i] == s[i + 1];
      }
    }
  }

  lemma {:induction false} ExtentsCover(s: seq<Area>, x: int)
    ensures Covers(Extents(s), x) <==> Flags(s, x).Some?
  {
    FlagsHolds(s, x);
    assert forall i :: 0 <= i < |s| ==> (s[i].Holds(x) <==> Extents(s)[i].0 <= x < Extents(s)[i].1);
  }

  /** Nothing is left of `space`, and nothing else changes. */
  ghost predicate Left(a: map<Loc, Content>, b: map<Loc, Content>, space: nat) {
    && (forall l :: l in b <==> l in a && l.space != space)
    && (forall l :: l in b ==> b[l] == a[l])
  }

  lemma {:induction false} GoneLeft(s: State, b: map<Loc, Content>, space: nat, areas: seq<Area>)
    requires InAreas(s.pt, space, areas) && Gone(View(s), b, space, Extents(areas))
    ensures Left(View(s), b, space)
  {
    ViewKeys(s);
    forall l: Loc | l in View(s) && l.space == space
      ensures Covers(Extents(areas), l.va * PGSIZE)
    {
      assert l == Loc(space, l.va);
      ExtentsCover(areas, l.va * PGSIZE);
    }
  }

  /** exit_mmap, up to the page tables: since pages are only in areas, all pages of the space are gone. */
  method ExitMmap(mm: Mm, m: Memory, space: nat)
    requires mm.Valid() && Paged(mm.Areas())
    requires Inv(m.St(), {}, None, None) && m.Counted() && InAreas(m.pt, space, mm.Areas())
    modifies m
    ensures m.Counted()
    ensures Inv(m.St(), {}, None, None)
    ensures Left(old(m.Memories()), m.Memories(), space)
    ensures OnlySpace(old(m.pt), m.pt, space)
  {
    hide Inv, View, NoWider, InAreas, Gone, OnlySpace, Left, Mm.TreeHolds, At, RedBlack, Inorder;
    ghost var st, a, s := m.St(), m.Memories(), mm.Areas();
    GoneNone(a, space);
    OnlySpaceNone(m.pt, space);
    assert Extents(s)[..0] == [];
    for i := 0 to |mm.mmap_list|
      invariant m.Counted()
      invariant Inv(m.St(), {}, None, None)
      invariant Gone(a, m.Memories(), space, Extents(s)[..i])
      invariant OnlySpace(old(m.pt), m.pt, space)
    {
      ghost var b, pt1 := m.Memories(), m.pt;
      var vma := mm.mmap_list[i];
      assert s[i] == Area(vma.vm_start, vma.vm_end, vma.vm_flags);
      PagedAt(s, i);
      assert UserPages(vma.vm_start, vma.vm_end);
      UnmapRange(m, space, vma.vm_start / PGSIZE, vma.vm_end / PGSIZE);
      OnlySpaceNext(old(m.pt), pt1, m.pt, space, vma.vm_start / PGSIZE, vma.vm_start / PGSIZE);
      GoneNext(a, b, m.Memories(), space, Extents(s)[..i], Extents(s)[i]);
      assert Extents(s)[..i] + [Extents(s)[i]] == Extents(s)[..i + 1];
    }
    assert Extents(s)[..|s|] == Extents(s);
    GoneLeft(st, m.Memories(), space, s);
  }

  /** The pages of `parent` in the areas `t` have been copied to `child`, and nothing else changes. */
  ghost predicate Copied(a: map<Loc, Content>, b: map<Loc, Content>, parent: nat, child: nat, t: seq<Area>) {
    && (forall l :: l in b <==> l in a || (l.space == child && Loc(parent, l.va) in a && Flags(t, l.va * PGSIZE).Some?))
    && (forall l :: l in a ==> l in b && b[l] == a[l])
    && (forall va: nat :: Loc(parent, va) in a && Flags(t, va * PGSIZE).Some? ==>
          Loc(child, va) in b && b[Loc(child, va)] == a[Loc(parent, va)])
  }

  /** The space `child`, which had no pages, has the memory of `parent` now, and nothing else changes. */
  ghost predicate SpaceCopied(a: map<Loc, Content>, b: map<Loc, Content>, parent: nat, child: nat) {
    && (forall l :: l in b <==> l in a || (l.space == child && Loc(parent, l.va) in a))
    && (forall l :: l in a ==> l in b && b[l] == a[l])
    && (forall va: nat :: Loc(parent, va) in a ==> Loc(child, va) in b && b[Loc(child, va)] == a[Loc(parent, va)])
  }

  /** Only `child` has new pages. */
  ghost predicate GrewOnly(a: map<Loc, Content>, b: map<Loc, Content>, child: nat) {
    (forall l :: l in a ==> l in b && b[l] == a[l]) && forall l :: l in b ==> l in a || l.space == child
  }

  ghost predicate Empty(a: map<Loc, Content>, space: nat) {
    forall l :: l in a ==> l.space != space
  }

  lemma {:induction false} CopiedNone(a: map<Loc, Content>, parent: nat, child: nat)
    ensures Copied(a, a, parent, child, [])
  {
  }

  lemma {:induction false} PageStart(start: int, end: int, va: nat)
    requires UserPages(start, end)
    ensures start / PGSIZE <= va < end / PGSIZE <==> start <= va * PGSIZE < end
  {
  }

  /** An area in front of others: its pages are in none of those. */
  lemma {:induction false} FlagsFront(area: Area, t: seq<Area>, va: nat)
    requires Ordered([area] + t) && UserPages(area.start, area.end)
    ensures area.start / PGSIZE <= va < area.end / PGSIZE ==>
              Flags([area] + t, va * PGSIZE) == Some(area.flags) && Flags(t, va * PGSIZE) == None
    ensures !(area.start / PGSIZE <= va < area.end / PGSIZE) ==> Flags([area] + t, va * PGSIZE) == Flags(t, va * PGSIZE)
  {
    var all, x := [area] + t, va * PGSIZE;
    PageStart(area.start, area.end, va);
    FlagsConcat([area], t, x);
    FlagsOne(area, x);
    if area.Holds(x) {
      assert forall i :: 0 <= i < |t| ==> all[i + 1] == t[i] && all[0].end <= all[i + 1].start;
      FlagsNone(t, x);
    }
  }

  /** copy_range finds no page of the child in its way. */
  lemma {:induction false} NoTarget(a: map<Loc, Content>, b: map<Loc, Content>, parent: nat, child: nat, area: Area,
                                    t: seq<Area>)
    requires Copied(a, b, parent, child, t) && Empty(a, child) && Ordered([area] + t) && UserPages(area.start, area.end)
    ensures forall va :: area.start / PGSIZE <= va < area.end / PGSIZE ==> Loc(child, va) !in b
  {
    forall va: nat | area.start / PGSIZE <= va < area.end / PGSIZE
      ensures Loc(child, va) !in b
    {
      FlagsFront(area, t, va);
    }
  }

  lemma {:induction false} CopiedNext(a: map<Loc, Content>, b: map<Loc, Content>, c: map<Loc, Content>, parent: nat,
                                      child: nat,
                                      area: Area, t: seq<Area>)
    requires Copied(a, b, parent, child, t) && Empty(a, child) && parent != child
    requires Ordered([area] + t) && UserPages(area.start, area.end) && area.start < area.end
    requires Forked(b, c, parent, child, area.start / PGSIZE, area.end / PGSIZE)
    ensures Copied(a, c, parent, child, [area] + t)
  {
    forall va: nat
      ensures Loc(parent, va) in b <==> Loc(parent, va) in a
      ensures Flags([area] + t, va * PGSIZE).Some? <==>
                area.start / PGSIZE <= va < area.end / PGSIZE || Flags(t, va * PGSIZE).Some?
    {
      FlagsFront(area, t, va);
    }
  }

  lemma {:induction false} CopiedGrew(a: map<Loc, Content>, b: map<Loc, Content>, c: map<Loc, Content>, parent: nat,
                                      child: nat,
                                      t: seq<Area>, start: nat, upto: nat)
    requires Copied(a, b, parent, child, t) && Forked(b, c, parent, child, start, upto)
    ensures GrewOnly(a, c, child)
  {
  }

  lemma {:induction false} CopiedIn(pt: Table, pt': Table, child: nat, area: Area, t: seq<Area>)
    requires InAreas(pt, child, t) && Ordered([area] + t) && UserPages(area.start, area.end) && area.start < area.end
    requires NoWider(pt, pt', child, area.start / PGSIZE, area.end / PGSIZE)
    requires ReadOnly(pt', child, area.start / PGSIZE, area.end / PGSIZE)
    ensures InAreas(pt', child, [area] + t)
  {
    forall va: nat | Loc(child, va) in pt'
      ensures Flags([area] + t, va * PGSIZE).Some?
      ensures Writable(pt'[Loc(child, va)]) ==> Flags([area] + t, va * PGSIZE).value & VM_WRITE != 0
    {
      FlagsFront(area, t, va);
      if area.start / PGSIZE <= va < area.end / PGSIZE {
        assert !IsWritable(pt', Loc(child, va));
      }
    }
  }

  /** Since the pages of the parent are in its areas, copying those has copied all. */
  lemma {:induction false} CopiedAll(s: State, b: map<Loc, Content>, parent: nat, child: nat, areas: seq<Area>)
    requires InAreas(s.pt, parent, areas) && Copied(View(s), b, parent, child, areas)
    ensures SpaceCopied(View(s), b, parent, child)
  {
    ViewKeys(s);
    assert forall va: nat :: Loc(parent, va) in View(s) ==> Flags(areas, va * PGSIZE).Some?;
  }

  lemma {:induction false} LastAreas(s: seq<Area>, k: nat)
    requires Ordered(s) && Paged(s) && k < |s|
    ensures s[k..] == [s[k]] + s[k + 1..] && Ordered(s[k..]) && Paged(s[k..]) && UserPages(s[k].start, s[k].end)
    ensures s[k].start < s[k].end
  {
  }

  /** Each page of the area that is there gets a page table in the child. */
  ghost predicate AreaThere(pt: Table, parent: nat, area: Area, missing: set<nat>) {
    0 <= area.start && 0 <= area.end && NoneMissing(pt, parent, area.start / PGSIZE, area.end / PGSIZE, missing)
  }

  /**
   What a fork gets: an address space, all of its areas, but for those in `failing`, and page tables for its pages.
   */
  datatype ForkLuck = ForkLuck(created: bool, failing: set<nat>, missing: set<nat>)

  /** Each area is allocated, and each page of the parent that is there gets a page table. */
  ghost predicate Copies(pt: Table, parent: nat, s: seq<Area>, luck: ForkLuck) {
    && (forall i: nat :: i < |s| ==> i !in luck.failing)
    && forall va: nat :: Loc(parent, va) in pt ==> va !in luck.missing
  }

  /** The areas from `k` on were copied. */
  ghost predicate LastCopied(pt: Table, parent: nat, s: seq<Area>, k: nat, luck: ForkLuck) {
    forall i: nat :: k <= i < |s| ==> i !in luck.failing && AreaThere(pt, parent, s[i], luck.missing)
  }

  /** All pages are in areas, so that these are all. */
  lemma {:induction false} AllCopied(pt: Table, parent: nat, s: seq<Area>, luck: ForkLuck)
    requires InAreas(pt, parent, s) && Ordered(s) && Paged(s)
    ensures LastCopied(pt, parent, s, 0, luck) <==> Copies(pt, parent, s, luck)
  {
    if LastCopied(pt, parent, s, 0, luck) {
      forall va: nat | Loc(parent, va) in pt
        ensures va !in luck.missing
      {
        FlagsHolds(s, va * PGSIZE);
        var i: nat :| i < |s| && s[i].Holds(va * PGSIZE);
        LastAreas(s, i);
        PageStart(s[i].start, s[i].end, va);
        assert AreaThere(pt, parent, s[i], luck.missing);
      }
    }
    if Copies(pt, parent, s, luck) {
      forall i: nat | i < |s|
        ensures AreaThere(pt, parent, s[i], luck.missing)
      {
        LastAreas(s, i);
      }
    }
  }

  /** Copying leaves the pages of the parent where they are. */
  lemma {:induction false} ParentKept(s: State, s': State, parent: nat, child: nat, t: seq<Area>, area: Area,
                                      missing: set<nat>)
    requires Copied(View(s), View(s'), parent, child, t) && parent != child
    ensures AreaThere(s.pt, parent, area, missing) <==> AreaThere(s'.pt, parent, area, missing)
  {
    ViewKeys(s);
    ViewKeys(s');
    forall va: nat
      ensures Loc(parent, va) in s.pt <==> Loc(parent, va) in s'.pt
    {
      assert Loc(parent, va) in View(s) <==> Loc(parent, va) in View(s');
    }
  }

  /** One round of dup_mmap: the area at `k` is copied to the child, and then its pages. */
  method DupArea(to: Mm, vma: Vma, m: Memory, child: nat, parent: nat, memory: bool, missing: set<nat>,
                 ghost a: map<Loc, Content>, ghost s: seq<Area>, ghost k: nat)
    returns (ret: int)
    requires to.Valid() && Ordered(s) && Paged(s) && k < |s| && s[k] == Area(vma.vm_start, vma.vm_end, vma.vm_flags)
    requires to.Areas() == s[k + 1..] && Copied(a, m.Memories(), parent, child, s[k + 1..]) && Empty(a, child)
    requires Inv(m.St(), {}, None, None) && m.Counted() && InAreas(m.pt, child, to.Areas()) && parent != child
    requires child < MAX_SPACES
    modifies m, to, to.Tree()`shape, to.pool`red, to.pool`left, to.pool`right, to.pool`parent
    ensures to.Valid()
    ensures to.TreeKept()
    ensures to.Areas() == s[if memory then k else k + 1..]
    ensures ret in {0, -E_NO_MEM}
    ensures ret == 0 <==> memory && AreaThere(old(m.pt), parent, s[k], missing)
    ensures ret == 0 ==> Copied(a, m.Memories(), parent, child, s[k..])
    ensures ret != 0 ==> GrewOnly(a, m.Memories(), child)
    ensures m.Counted()
    ensures Inv(m.St(), {}, None, None)
    ensures InAreas(m.pt, child, to.Areas()) && OnlySpace(old(m.pt), m.pt, child)
  {
    hide Inv, View, NoWider, InAreas, Copied, GrewOnly, OnlySpace, Forked, ReadOnly, Ordered, Paged;
    hide Mm.TreeHolds, At, RedBlack, Inorder;
    ghost var b, pt, area := m.Memories(), m.pt, s[k];
    LastAreas(s, k);
    OnlySpaceNone(m.pt, child);
    CopiedSoFar(a, b, parent, child, s[k + 1..]);
    var new_vma := to.CopyArea(vma.vm_start, vma.vm_end, vma.vm_flags, memory, s, k);
    assert m.Memories() == b;
    if new_vma == null {
      return -E_NO_MEM;
    }
    NoTarget(a, b, parent, child, area, s[k + 1..]);
    ViewKeys(m.St());
    var upto;
    ret, upto := CopyRange(m, child, parent, vma.vm_start / PGSIZE, vma.vm_end / PGSIZE, missing);
    CopiedIn(pt, m.pt, child, area, s[k + 1..]);
    OnlySpaceNext(pt, pt, m.pt, child, area.start / PGSIZE, area.end / PGSIZE);
    if ret == 0 {
      CopiedNext(a, b, m.Memories(), parent, child, area, s[k + 1..]);
    } else {
      CopiedGrew(a, b, m.Memories(), parent, child, s[k + 1..], area.start / PGSIZE, upto);
    }
  }

  lemma {:induction false} CopiedSoFar(a: map<Loc, Content>, b: map<Loc, Content>, parent: nat, child: nat,
                                       t: seq<Area>)
    requires Copied(a, b, parent, child, t)
    ensures GrewOnly(a, b, child)
  {
  }

  /**
   dup_mmap into a new address space: the child has the areas and the memory of its parent; a failure leaves the rest
   out.
   */
  method DupMmap(to: Mm, from: Mm, m: Memory, child: nat, parent: nat, luck: ForkLuck)
    returns (ret: int, ghost k: nat)
    requires to.Valid() && to.pool == {} && to.mmap_tree == null && to.Areas() == []
    requires from != to && from.Valid() && Paged(from.Areas())
    requires Inv(m.St(), {}, None, None) && m.Counted() && parent != child && child < MAX_SPACES
    requires InAreas(m.pt, parent, from.Areas()) && Empty(m.Memories(), child)
    modifies m, to
    ensures to.Valid()
    ensures to.TreeKept()
    ensures ret in {0, -E_NO_MEM}
    ensures ret == 0 <==> Copies(old(m.pt), parent, old(from.Areas()), luck)
    ensures k <= |old(from.Areas())| && to.Areas() == old(from.Areas())[k..] && Paged(to.Areas())
    ensures ret == 0 ==> to.Areas() == old(from.Areas()) && SpaceCopied(old(m.Memories()), m.Memories(), parent, child)
    ensures ret != 0 ==> GrewOnly(old(m.Memories()), m.Memories(), child)
    ensures m.Counted()
    ensures Inv(m.St(), {}, None, None)
    ensures InAreas(m.pt, child, to.Areas()) && OnlySpace(old(m.pt), m.pt, child)
  {
    hide Inv, View, NoWider, InAreas, Copied, GrewOnly, OnlySpace, SpaceCopied, Ordered, Paged;
    hide Mm.TreeHolds, At, RedBlack, Inorder;
    ghost var st, a, s := m.St(), m.Memories(), from.Areas();
    AllCopied(m.pt, parent, s, luck);
    k := |s|;
    ret := 0;
    CopiedNone(a, parent, child);
    EmptyIn(st, child, s);
    OnlySpaceNone(m.pt, child);
    for i := |from.mmap_list| downto 0
      invariant to.Valid()
      invariant k == i
      invariant to.Areas() == s[k..]
      invariant to.TreeKept()
      invariant LastCopied(old(m.pt), parent, s, k, luck)
      invariant m.Counted()
      invariant Inv(m.St(), {}, None, None)
      invariant Copied(a, m.Memories(), parent, child, s[k..])
      invariant InAreas(m.pt, child, to.Areas())
      invariant OnlySpace(old(m.pt), m.pt, child)
    {
      ghost var pt1 := m.pt;
      var vma := from.mmap_list[i];
      assert s[i] == Area(vma.vm_start, vma.vm_end, vma.vm_flags);
      ParentKept(st, m.St(), parent, child, s[k..], s[i], luck.missing);
      ret := DupArea(to, vma, m, child, parent, i !in luck.failing, luck.missing, a, s, i);
      OnlySpaceTwice(old(m.pt), pt1, m.pt, child);
      LastCopiedNext(old(m.pt), parent, s, i, luck);
      if ret != 0 {
        LastCopiedMore(old(m.pt), parent, s, i, luck);
        k := if i !in luck.failing then i else i + 1;
        LastPaged(s, k);
        return;
      }
      k := i;
    }
    CopiedAll(st, m.Memories(), parent, child, s);
    LastPaged(s, k);
  }

  lemma {:induction false} LastCopiedNext(pt: Table, parent: nat, s: seq<Area>, k: nat, luck: ForkLuck)
    requires k < |s| && LastCopied(pt, parent, s, k + 1, luck)
    ensures LastCopied(pt, parent, s, k, luck) <==> k !in luck.failing && AreaThere(pt, parent, s[k], luck.missing)
  {
  }

  lemma {:induction false} LastCopiedMore(pt: Table, parent: nat, s: seq<Area>, k: nat, luck: ForkLuck)
    ensures LastCopied(pt, parent, s, 0, luck) ==> LastCopied(pt, parent, s, k, luck)
  {
  }

  lemma {:induction false} LastPaged(s: seq<Area>, k: nat)
    requires Paged(s) && k <= |s|
    ensures Paged(s[k..])
  {
  }

  lemma {:induction false} EmptyIn(s: State, space: nat, areas: seq<Area>)
    requires Empty(View(s), space)
    ensures InAreas(s.pt, space, areas[|areas|..])
  {
    ViewKeys(s);
    forall va: nat
      ensures Loc(space, va) !in s.pt
    {
      assert Loc(space, va) !in View(s);
    }
  }

  lemma {:induction false} OnlySpaceTwice(pt: Table, pt1: Table, pt2: Table, space: nat)
    requires OnlySpace(pt, pt1, space) && OnlySpace(pt1, pt2, space)
    ensures OnlySpace(pt, pt2, space)
  {
  }

  /** Taking away again what only the child had leaves what was there before. */
  lemma {:induction false} GrewLeft(a: map<Loc, Content>, b: map<Loc, Content>, c: map<Loc, Content>, child: nat)
    requires Empty(a, child) && GrewOnly(a, b, child) && Left(b, c, child)
    ensures c == a
  {
  }

  /**
   The part of copy_mm that duplicates: the child gets the areas and the memory of its parent, or there is no child and
   nothing has changed.
   */
  method Duplicate(from: Mm, m: Memory, child: nat, parent: nat, luck: ForkLuck) returns (ret: int, to: Mm?)
    requires from.Valid() && Paged(from.Areas())
    requires Inv(m.St(), {}, None, None) && m.Counted() && parent != child && child < MAX_SPACES
    requires InAreas(m.pt, parent, from.Areas()) && Empty(m.Memories(), child)
    modifies m
    ensures ret in {0, -E_NO_MEM} && (ret == 0 <==> to != null)
    ensures ret == 0 <==> luck.created && Copies(old(m.pt), parent, old(from.Areas()), luck)
    ensures to != null ==> fresh(to) && fresh(to.pool) && fresh(to.Tree())
    ensures to != null ==> to.Valid() && to.Areas() == from.Areas() && InAreas(m.pt, child, to.Areas())
    ensures to != null ==> SpaceCopied(old(m.Memories()), m.Memories(), parent, child)
    ensures to == null ==> m.Memories() == old(m.Memories())
    ensures m.Counted()
    ensures Inv(m.St(), {}, None, None)
    ensures OnlySpace(old(m.pt), m.pt, child)
  {
    hide Inv, View, NoWider, InAreas, Copied, GrewOnly, OnlySpace, SpaceCopied, Left, Empty, Ordered, Paged;
    hide Mm.TreeHolds, At, RedBlack, Inorder;
    ghost var a, pt, areas := m.Memories(), m.pt, from.Areas();
    OnlySpaceNone(m.pt, child);
    if !luck.created {
      return -E_NO_MEM, null;
    }
    to := new Mm();
    ghost var k;
    ret, k := DupMmap(to, from, m, child, parent, luck);
    assert from.Areas() == areas;
    if ret != 0 {
      ghost var b, pt1 := m.Memories(), m.pt;
      ExitMmap(to, m, child);
      GrewLeft(a, b, m.Memories(), child);
      OnlySpaceTwice(pt, pt1, m.pt, child);
      to := null;
    }
  }

  /**
   copy_mm: a kernel thread has no address space, with CLONE_VM the child shares that of its parent, and else it gets a
   duplicate of its own in the space `child`.
   */
  method CopyMm(clone_vm: bool, from: Mm?, m: Memory, child: nat, parent: nat, luck: ForkLuck)
    returns (ret: int, to: Mm?)
    requires Inv(m.St(), {}, None, None) && m.Counted()
    requires from != null && !clone_vm ==>
      from.Valid() && Paged(from.Areas()) && InAreas(m.pt, parent, from.Areas())
      && parent != child && child < MAX_SPACES && Empty(m.Memories(), child)
    modifies m
    ensures ret in {0, -E_NO_MEM} && (ret == 0 ==> (to == null <==> from == null)) && (ret != 0 ==> to == null)
    ensures from == null || clone_vm ==> ret == 0 && to == from && m.St() == old(m.St())
    ensures from != null && !clone_vm ==>
      (ret == 0 <==> luck.created && Copies(old(m.pt), parent, old(from.Areas()), luck))
    ensures to != null && !clone_vm ==> fresh(to) && fresh(to.pool) && fresh(to.Tree())
    ensures to != null && !clone_vm ==> to.Valid() && InAreas(m.pt, child, to.Areas())
    ensures to != null && !clone_vm ==> from.Valid() && to.Areas() == from.Areas()
    ensures to != null && !clone_vm ==> SpaceCopied(old(m.Memories()), m.Memories(), parent, child)
    ensures to == null ==> m.Memories() == old(m.Memories())
    ensures m.Counted()
    ensures Inv(m.St(), {}, None, None)
    ensures OnlySpace(old(m.pt), m.pt, child)
  {
    hide Inv, View, InAreas, OnlySpace, SpaceCopied, Empty, Paged, Mm.TreeHolds, At, RedBlack, Inorder;
    OnlySpaceNone(m.pt, child);
    if from == null || clone_vm {
      return 0, from;
    }
    ret, to := Duplicate(from, m, child, parent, luck);
  }
}
