/**
 All address spaces together: whatever processes and the swap daemon do, pages are only where areas are, and writable
 only in areas with VM_WRITE, in every space.
 */
module Kernel {
  import opened Areas
  import opened Defs
  import opened Fault
  import opened Lists
  import opened Paging
  import opened RbLinks
  import opened RbShapes
  import opened Spaces
  import opened Swap
  import opened Vmm

  ghost function Footprint(mm: Mm): set<object>
    reads mm`mmap_tree, mm`pool
  {
    var self: set<object>, tree: set<object>, nodes: set<object> := {mm}, mm.Tree(), mm.pool;
    self + tree + nodes
  }

  /** The pages of the space are in its areas, which are private. */
  ghost predicate SpaceOk(m: Memory, space: nat, mm: Mm)
    reads m, mm, mm.mmap_tree, mm.pool
  {
    mm.Valid() && Paged(mm.Areas()) && Private(mm.Areas()) && InAreas(m.pt, space, mm.Areas())
  }

  ghost predicate SameAreas(mm: Mm, mm': Mm)
    reads mm, mm.mmap_tree, mm.pool, mm', mm'.mmap_tree, mm'.pool
  {
    mm.Valid() && mm'.Valid() && mm.Areas() == mm'.Areas()
  }

  twostate predicate Same(mm: Mm)
    reads mm, mm.mmap_tree, mm.pool
  {
    && unchanged(mm) && (mm.mmap_tree != null ==> unchanged(mm.mmap_tree)) && forall v :: v in mm.pool ==> unchanged(v)
  }

  lemma {:induction false} OnlySpaceKeys(pt: Table, pt': Table, space: nat)
    requires OnlySpace(pt, pt', space)
    ensures forall l :: l in pt' ==> l in pt || l.space == space
  {
  }

  class System {
    const m: Memory
    /** The address spaces that there are. */
    var mms: map<nat, Mm>

    ghost predicate SpacesOk()
      reads *
    {
      forall s :: s in mms ==> s < MAX_SPACES && SpaceOk(m, s, mms[s])
    }

    /** No two spaces have an object in common. */
    ghost predicate Apart()
      reads *
    {
      forall s, t :: s in mms && t in mms && s != t ==> Footprint(mms[s]) !! Footprint(mms[t])
    }

    ghost predicate Valid()
      reads *
    {
      && Inv(m.St(), {}, None, None) && m.Counted() && SpacesOk() && Apart()
      && forall l :: l in m.pt ==> l.space in mms
    }

    /** No process yet. */
    constructor (frames: nat, max_swap_offset: nat)
      requires max_swap_offset >= 1024
      ensures Valid() && mms == map[]
    {
      var memory := new Memory(frames, max_swap_offset);
      m, mms := memory, map[];
    }

    /** An operation on one space leaves the objects of the others alone; that space may be new, or gone. */
    twostate predicate OthersSame(space: nat)
      reads *
    {
      && (forall s :: s in mms && s != space ==> s in old(mms) && mms[s] == old(mms)[s] && Same(mms[s]))
      && (forall s :: s in old(mms) && s != space ==> s in mms)
    }

    /** The space is as it was, but for new objects, or new. */
    twostate predicate Renewed(space: nat)
      reads *
    {
      space in mms ==>
        || (space in old(mms) && mms[space] == old(mms)[space] && mms[space].TreeKept())
        || (space !in old(mms) && fresh(Footprint(mms[space])))
    }

    twostate lemma KeptSpaces(space: nat)
      requires old(SpacesOk()) && (space in mms ==> space < MAX_SPACES && SpaceOk(m, space, mms[space]))
      requires OnlySpace(old(m.pt), m.pt, space) && OthersSame(space)
      ensures SpacesOk()
    {
      hide Inv, View, InAreas, OnlySpace, Paged, Private;
      forall s | s in mms && s != space
        ensures SpaceOk(m, s, mms[s])
      {
        OthersIn(old(m.pt), m.pt, space, s, mms[s].Areas());
      }
    }

    twostate lemma KeptApart(space: nat)
      requires old(Apart()) && OthersSame(space) && Renewed(space)
      ensures Apart()
    {
      forall s | s in mms && s != space
        ensures Footprint(mms[s]) == old(Footprint(mms[s]))
        ensures space in mms ==> Footprint(mms[space]) !! Footprint(mms[s])
      {
      }
    }

    /** All objects of the spaces. */
    ghost function Objects(): set<object>
      reads *
    {
      set s, o | s in mms && o in Footprint(mms[s]) :: o
    }

    twostate predicate NewOnly()
      reads *
    {
      forall o :: o in Objects() ==> o in old(Objects()) || fresh(o)
    }

    twostate lemma KeptObjects(space: nat)
      requires OthersSame(space) && Renewed(space)
      ensures NewOnly() && forall s :: s in old(mms) && s != space ==> s in mms
    {
      forall o | o in Objects()
        ensures o in old(Objects()) || fresh(o)
      {
        var s :| s in mms && o in Footprint(mms[s]);
        if s in old(mms) {
          assert mms[s] == old(mms)[s];
          assert o in old(Footprint(mms[s])) || fresh(o);
          assert o in old(Footprint(mms[s])) ==> o in old(Objects());
        } else {
          assert fresh(Footprint(mms[s]));
        }
      }
    }

    twostate lemma Kept(space: nat)
      requires old(Valid())
      requires Inv(m.St(), {}, None, None) && m.Counted()
      requires space in mms ==> space < MAX_SPACES && SpaceOk(m, space, mms[space])
      requires OnlySpace(old(m.pt), m.pt, space)
      requires OthersSame(space) && Renewed(space)
      requires space in mms || forall l :: l in m.pt ==> l.space != space
      ensures Valid() && NewOnly()
    {
      hide Inv, View, InAreas, OnlySpace, Paged, Private, SpaceOk, SpacesOk, Apart, Renewed, OthersSame, NewOnly;
      KeptObjects(space);
      KeptSpaces(space);
      KeptApart(space);
      OnlySpaceKeys(old(m.pt), m.pt, space);
    }

    lemma {:induction false} NothingShared(space: nat)
      requires Apart() && space in mms
      ensures forall s :: s in mms && s != space ==>
                mms[s] != mms[space] && mms[s].Tree() !! mms[space].Tree() && mms[s].pool !! mms[space].pool
    {
      forall s | s in mms && s != space
        ensures mms[s] != mms[space] && mms[s].Tree() !! mms[space].Tree() && mms[s].pool !! mms[space].pool
      {
        assert Footprint(mms[s]) !! Footprint(mms[space]);
        assert (mms[s] as object) in Footprint(mms[s]);
        assert forall t :: t in mms[s].Tree() ==> (t as object) in Footprint(mms[s]);
        assert forall t :: t in mms[space].Tree() ==> (t as object) in Footprint(mms[space]);
        assert forall v :: v in mms[s].pool ==> (v as object) in Footprint(mms[s]);
        assert forall v :: v in mms[space].pool ==> (v as object) in Footprint(mms[space]);
      }
    }

    /** mmap of a process. */
    method DoMap(space: nat, addr: int, len: int, flags: bv32, memory: bool) returns (ret: int)
      requires Valid() && space in mms && 0 <= addr < TWO_32 && 0 <= len < TWO_32
      modifies mms[space], mms[space].Tree(), mms[space].pool
      ensures Valid() && NewOnly()
      ensures mms == old(mms) && OthersSame(space) && m.St() == old(m.St())
      ensures MapStep(old(mms[space].Areas()), mms[space].Areas(), RoundDown(addr), RoundUp((addr + len) % TWO_32),
                      flags, memory, ret)
    {
      hide Inv, View, InAreas, OnlySpace, Paged, Private, Apart, NewOnly, Mm.TreeHolds, At, RedBlack, Inorder, Ordered;
      var mm := mms[space];
      ghost var areas := mm.Areas();
      NothingShared(space);
      ret := Map(mm, m, space, addr, len, flags, memory);
      OnlySpaceNone(m.pt, space);
      if ret == 0 {
        PrivateMapped(areas, mm.Areas(), RoundDown(addr), RoundUp((addr + len) % TWO_32), flags);
      }
      Kept(space);
    }

    /** munmap. */
    method DoUnmap(space: nat, addr: int, len: int, memory: bool) returns (ret: int)
      requires Valid() && space in mms && 0 <= addr < TWO_32 && 0 <= len < TWO_32
      modifies m, mms[space], mms[space].Tree(), mms[space].pool
      ensures Valid() && NewOnly()
      ensures mms == old(mms) && OthersSame(space)
      ensures UnmapStep(old(mms[space].Areas()), old(m.St()), mms[space].Areas(), m.St(), space, RoundDown(addr),
                        RoundUp((addr + len) % TWO_32), memory, ret)
    {
      hide Inv, View, InAreas, OnlySpace, Paged, Private, Apart, NewOnly, Mm.TreeHolds, At, RedBlack, Inorder, Ordered;
      hide NoWider, Subtracted, Emptied, RoundDown, RoundUp, UserAccess;
      var mm := mms[space];
      ghost var areas, pt := mm.Areas(), m.pt;
      NothingShared(space);
      ret := Unmap(mm, m, space, addr, len, memory);
      WiderOnly(pt, m.pt, space);
      if ret == 0 {
        PrivateSubtracted(areas, mm.Areas(), RoundDown(addr), RoundUp((addr + len) % TWO_32));
      }
      Kept(space);
    }

    /** brk. */
    method DoBrk(space: nat, addr: int, len: int, split: bool, memory: bool) returns (ret: int)
      requires Valid() && space in mms && 0 <= addr < TWO_32 && 0 <= len < TWO_32
      modifies m, mms[space], mms[space].Tree(), mms[space].pool
      ensures Valid() && NewOnly()
      ensures mms == old(mms) && OthersSame(space)
      ensures BrkStep(old(mms[space].Areas()), old(m.St()), mms[space].Areas(), m.St(), space, RoundDown(addr),
                      RoundUp((addr + len) % TWO_32), split, memory, ret)
    {
      hide Unmapped, Flags;
      hide Inv, View, InAreas, OnlySpace, Paged, Private, Apart, NewOnly, Mm.TreeHolds, At, RedBlack, Inorder, Ordered;
      hide NoWider, Subtracted, Remapped, Emptied, RoundDown, RoundUp, UserAccess;
      var mm := mms[space];
      ghost var areas, pt, start, end := mm.Areas(), m.pt, RoundDown(addr), RoundUp((addr + len) % TWO_32);
      NothingShared(space);
      ret := Brk(mm, m, space, addr, len, split, memory);
      WiderOnly(pt, m.pt, space);
      if ret == 0 {
        PrivateBrk(areas, mm.Areas(), start, end);
      } else if Subtracted(areas, mm.Areas(), start, end) {
        PrivateSubtracted(areas, mm.Areas(), start, end);
      }
      Kept(space);
    }

    /** A load of a process. */
    method DoLoad(space: nat, addr: int, luck: Luck) returns (r: Option<Content>)
      requires Valid() && space in mms && 0 <= addr < TWO_32
      modifies m, mms[space]
      ensures Valid() && NewOnly()
      ensures mms == old(mms) && OthersSame(space) && mms[space].Areas() == old(mms[space].Areas())
      ensures LoadStep(mms[space].Areas(), old(m.St()), m.St(), space, addr, luck, r)
    {
      hide Inv, View, InAreas, OnlySpace, Paged, Private, Apart, NewOnly, Mm.TreeHolds, At, RedBlack, Inorder, Ordered;
      hide NoWider, Gained, Flags;
      var mm := mms[space];
      ghost var pt := m.pt;
      NothingShared(space);
      r := UserLoad(mm, m, space, addr, luck);
      OnlySpaceNone(pt, space);
      OnlySpaceNext(pt, pt, m.pt, space, addr / PGSIZE, addr / PGSIZE + 1);
      Kept(space);
    }

    /** A store of a process. */
    method DoStore(space: nat, addr: int, c: Content, luck: Luck) returns (done: bool)
      requires Valid() && space in mms && 0 <= addr < TWO_32
      modifies m, mms[space]
      ensures Valid() && NewOnly()
      ensures mms == old(mms) && OthersSame(space) && mms[space].Areas() == old(mms[space].Areas())
      ensures StoreStep(mms[space].Areas(), old(m.St()), m.St(), space, addr, c, luck, done)
    {
      hide Inv, View, InAreas, OnlySpace, Paged, Private, Apart, NewOnly, Mm.TreeHolds, At, RedBlack, Inorder, Ordered;
      hide NoWider, Flags;
      var mm := mms[space];
      ghost var pt := m.pt;
      NothingShared(space);
      done := UserStore(mm, m, space, addr, c, luck);
      OnlySpaceNone(pt, space);
      OnlySpaceNext(pt, pt, m.pt, space, addr / PGSIZE, addr / PGSIZE + 1);
      Kept(space);
    }

    /** A process with an empty address space. */
    method DoCreate(space: nat)
      requires Valid() && space !in mms && space < MAX_SPACES
      modifies this`mms
      ensures Valid() && NewOnly()
      ensures mms.Keys == old(mms).Keys + {space} && mms[space].Areas() == [] && OthersSame(space)
      ensures m.St() == old(m.St())
    {
      hide Inv, View, InAreas, OnlySpace, Paged, Private, Apart, NewOnly, Mm.TreeHolds, At, RedBlack, Inorder, Ordered;
      var mm := new Mm();
      OnlySpaceNone(m.pt, space);
      NoPages(m.pt, space);
      mms := mms[space := mm];
      Kept(space);
    }

    twostate lemma ForkRenewed(child: nat)
      requires child !in old(mms)
      requires (child in mms ==> fresh(mms[child]) && fresh(mms[child].pool) && fresh(mms[child].Tree()))
      ensures Renewed(child)
    {
    }

    lemma {:induction false} ForkReady(parent: nat, child: nat)
      requires Valid() && parent in mms && child !in mms
      ensures SpaceOk(m, parent, mms[parent]) && parent < MAX_SPACES && Empty(m.Memories(), child)
    {
      hide Inv, View, InAreas, Private, Paged, Apart, Mm.TreeHolds, At, RedBlack, Inorder, Ordered;
      ViewKeys(m.St());
    }

    /** fork. */
    method DoFork(parent: nat, child: nat, luck: ForkLuck) returns (ret: int)
      requires Valid() && parent in mms && child !in mms && child < MAX_SPACES
      modifies this`mms, m
      ensures Valid() && NewOnly()
      ensures ret in {0, -E_NO_MEM} && OthersSame(child)
      ensures ret == 0 <==> luck.created && Copies(old(m.pt), parent, old(mms[parent].Areas()), luck)
      ensures ret == 0 ==> child in mms && mms == old(mms)[child := mms[child]] && SameAreas(mms[parent], mms[child])
      ensures ret == 0 ==> SpaceCopied(old(m.Memories()), m.Memories(), parent, child)
      ensures ret != 0 ==> mms == old(mms) && m.Memories() == old(m.Memories())
    {
      hide Inv, View, InAreas, OnlySpace, Paged, Private, Apart, NewOnly, Mm.TreeHolds, At, RedBlack, Inorder, Ordered;
      hide SpaceCopied, SpacesOk, Empty, Renewed;
      ForkReady(parent, child);
      ViewKeys(m.St());
      var to;
      ret, to := CopyMm(false, mms[parent], m, child, parent, luck);
      ViewKeys(m.St());
      if ret == 0 {
        mms := mms[child := to];
        assert SpaceOk(m, child, to);
      }
      ForkRenewed(child);
      Kept(child);
    }

    /** The end of a process. */
    method DoExit(space: nat)
      requires Valid() && space in mms
      modifies this`mms, m
      ensures Valid() && NewOnly()
      ensures mms == old(mms) - {space} && OthersSame(space) && Left(old(m.Memories()), m.Memories(), space)
    {
      hide Inv, View, InAreas, OnlySpace, Paged, Private, Apart, NewOnly, Mm.TreeHolds, At, RedBlack, Inorder, Ordered;
      ViewKeys(m.St());
      ExitMmap(mms[space], m, space);
      ViewKeys(m.St());
      mms := mms - {space};
      Kept(space);
    }

    /** What the swap daemon does with an address space: swap_out_mm. */
    method DoSwapOut(space: nat, swap_address: nat, require: nat) returns (free_count: nat)
      requires Valid() && space in mms
      modifies m
      ensures Valid() && NewOnly()
      ensures mms == old(mms) && OthersSame(MAX_SPACES)
      ensures SwapStep(mms[space].Areas(), old(m.St()), m.St(), space, swap_address, require, free_count)
    {
      hide Inv, View, InAreas, OnlySpace, Paged, Private, Apart, NewOnly, Mm.TreeHolds, At, RedBlack, Inorder, Ordered;
      hide NoWider, Round, SweptOver, PresentIn, AllVisited;
      ghost var st, pt, s := m.St(), m.pt, mms[space].Areas();
      var ranges := ListRanges(mms[space]);
      var next;
      ghost var visits;
      free_count, next, visits := m.SwapOutMm(space, ranges, swap_address, require);
      NowhereWider(pt, m.pt, MAX_SPACES);
      if s == [] {
        NowhereToVisit(st, m.St(), space);
      } else if free_count < require {
        WholeRound(st, m.St(), s, ranges, space, swap_address, visits, next);
      }
      Kept(MAX_SPACES);
    }

    /** page_launder. */
    method DoLaunder(failing: set<nat>) returns (free_count: int)
      requires Valid()
      modifies m
      ensures Valid() && NewOnly()
      ensures mms == old(mms) && OthersSame(MAX_SPACES) && LaunderStep(old(m.St()), m.St(), failing, free_count)
    {
      hide Inv, View, InAreas, OnlySpace, Paged, Private, Apart, NewOnly, Mm.TreeHolds, At, RedBlack, Inorder, Ordered;
      hide Among, MayFree, ReferencedIn, StuckIn;
      free_count := m.PageLaunder(failing);
      OnlySpaceNone(m.pt, MAX_SPACES);
      Kept(MAX_SPACES);
    }

    /** refill_inactive_scan. */
    method DoRefill()
      requires Valid()
      modifies m
      ensures Valid() && NewOnly()
      ensures mms == old(mms) && OthersSame(MAX_SPACES) && RefillStep(old(m.St()), m.St())
    {
      hide Inv, View, InAreas, OnlySpace, Paged, Private, Apart, NewOnly, Mm.TreeHolds, At, RedBlack, Inorder, Ordered;
      hide Among, ReferencedIn, UnreferencedIn;
      m.RefillInactiveScan();
      OnlySpaceNone(m.pt, MAX_SPACES);
      Kept(MAX_SPACES);
    }

    lemma {:induction false} ObjectsOf(space: nat)
      requires space in mms
      ensures (mms[space] as object) in Objects()
      ensures (forall t :: t in mms[space].Tree() ==> (t as object) in Objects())
      ensures (forall v :: v in mms[space].pool ==> (v as object) in Objects())
    {
      assert forall o :: o in Footprint(mms[space]) ==> o in Objects();
    }

    twostate lemma NothingNew()
      requires mms == old(mms) && forall s :: s in mms ==> Same(mms[s])
      ensures NewOnly()
    {
      KeptObjects(MAX_SPACES);
    }

    /** One operation, if it is possible. */
    method Do(op: Op) returns (out: Outcome)
      requires Valid()
      modifies this`mms, m, Objects()
      ensures Valid() && NewOnly()
      ensures WorldStep(old(Now()), op, Now(), out)
    {
      hide Mm.Valid, Mm.Areas;
      hide Inv, View, SpacesOk, Apart, NewOnly, Objects, OthersSame, OwnStep, SwapStep, LaunderStep, RefillStep;
      hide SpaceCopied, Copies, Left;
      out := Nothing;
      match op {
        case Of(space, action) =>
          if space in mms {
            out := DoOwn(space, action);
            AreasNow(space);
            return;
          }
        case Create(space) =>
          if space !in mms && space < MAX_SPACES {
            DoCreate(space);
            AreasNow(space);
            return;
          }
        case Fork(parent, child, luck) =>
          if parent in mms && child !in mms && child < MAX_SPACES {
            var ret := DoFork(parent, child, luck);
            AreasNow(child);
            return Ret(ret);
          }
        case Exit(space) =>
          if space in mms {
            DoExit(space);
            AreasNow(space);
            return;
          }
        case SwapOut(space, swap_address, require) =>
          if space in mms {
            var n := DoSwapOut(space, swap_address, require);
            AreasNow(MAX_SPACES);
            return Ret(n);
          }
        case Launder(failing) =>
          var n := DoLaunder(failing);
          AreasNow(MAX_SPACES);
          return Ret(n);
        case Refill =>
          DoRefill();
          AreasNow(MAX_SPACES);
          return;
      }
      NothingNew();
    }

    /** What a process does in its own address space; addresses are 32-bit numbers. */
    method DoOwn(space: nat, a: Action) returns (out: Outcome)
      requires Valid() && space in mms
      modifies m, Objects()
      ensures Valid() && NewOnly()
      ensures mms == old(mms) && OthersSame(space)
      ensures OwnStep(old(mms[space].Areas()), old(m.St()), mms[space].Areas(), m.St(), space, a, out)
    {
      hide Inv, View, SpacesOk, Apart, NewOnly, Objects, OthersSame, MapStep, UnmapStep, BrkStep, LoadStep, StoreStep;
      ObjectsOf(space);
      var addr, len := a.addr % TWO_32, a.len % TWO_32;
      match a.kind {
        case MapAt(flags, memory) =>
          var ret := DoMap(space, addr, len, flags, memory);
          out := Ret(ret);
        case UnmapAt(memory) =>
          var ret := DoUnmap(space, addr, len, memory);
          out := Ret(ret);
        case BrkAt(split, memory) =>
          var ret := DoBrk(space, addr, len, split, memory);
          out := Ret(ret);
        case LoadAt(luck) =>
          var r := DoLoad(space, addr, luck);
          out := Loaded(r);
        case StoreAt(c, luck) =>
          var done := DoStore(space, addr, c, luck);
          out := Stored(done);
      }
    }

    /** The areas of all spaces, and the machine. */
    ghost function Now(): World
      requires Valid()
      reads *
    {
      World(map s | s in mms :: mms[s].Areas(), m.St())
    }

    twostate lemma OthersAreas(space: nat)
      requires old(SpacesOk()) && SpacesOk() && OthersSame(space)
      ensures forall s :: s in mms && s != space ==>
                s in old(mms) && mms[s].Areas() == old(mms)[s].Areas() == old(mms[s].Areas())
    {
      hide Inv, View, InAreas, Paged, Private, Mm.TreeHolds, At, RedBlack, Inorder, Ordered;
    }

    twostate lemma AreasNow(space: nat)
      requires old(Valid()) && Valid() && OthersSame(space)
      ensures Now().areas == if space in mms then old(Now()).areas[space := mms[space].Areas()]
                             else old(Now()).areas - {space}
    {
      hide Inv, View, Apart, SpaceOk, Same, Mm.Valid, Mm.Areas;
      OthersAreas(space);
    }

    lemma {:induction false} NowOk()
      requires Valid()
      ensures WorldOk(Now())
    {
      hide Inv, InAreas, Paged, Private, Apart;
    }

    /**
     Every run of any processes and of the swap daemon is a run of the world below, with the same results, and at all
     times page tables and areas agree in every address space.
     */
    method Run(ops: seq<Op>) returns (ghost trace: seq<World>, outs: seq<Outcome>)
      requires Valid()
      modifies this`mms, m, Objects()
      ensures Valid()
      ensures WorldRun(trace, ops, outs) && trace[0] == old(Now()) && trace[|ops|] == Now()
      ensures forall i :: 0 <= i <= |ops| ==> WorldOk(trace[i])
    {
      hide Inv, Apart, Objects, WorldStep, WorldOk, SpacesOk;
      trace, outs := [Now()], [];
      NowOk();
      for k := 0 to |ops|
        invariant Valid() && NewOnly()
        invariant WorldRun(trace, ops[..k], outs) && trace[0] == old(Now()) && trace[k] == Now()
        invariant forall i :: 0 <= i <= k ==> WorldOk(trace[i])
      {
        var out := Do(ops[k]);
        NowOk();
        trace, outs := trace + [Now()], outs + [out];
      }
      assert ops[..|ops|] == ops;
    }
  }

  datatype Kind =
    | MapAt(flags: bv32, memory: bool)
    | UnmapAt(memory: bool)
    | BrkAt(split: bool, memory: bool)
    | LoadAt(luck: Luck)
    | StoreAt(c: Content, luck: Luck)

  datatype Action = Action(kind: Kind, addr: nat, len: nat)

  datatype Op =
    | Of(space: nat, action: Action)
    | Create(space: nat)
    | Fork(parent: nat, child: nat, luck: ForkLuck)
    | Exit(space: nat)
    | SwapOut(space: nat, swap_address: nat, require: nat)
    | Launder(failing: set<nat>)
    | Refill

  datatype Outcome = Ret(ret: int) | Loaded(r: Option<Content>) | Stored(done: bool) | Nothing

  // ---------- what each operation does ----------

  /** The areas of each address space, and the machine of `Paging`. */
  datatype World = World(areas: map<nat, seq<Area>>, st: State)

  /** Page tables and areas agree in every address space. */
  ghost predicate WorldOk(w: World) {
    && Inv(w.st, {}, None, None)
    && (forall s :: s in w.areas ==>
          s < MAX_SPACES && Ordered(w.areas[s]) && Paged(w.areas[s]) && Private(w.areas[s])
          && InAreas(w.st.pt, s, w.areas[s]))
    && forall l :: l in w.st.pt ==> l.space in w.areas
  }

  ghost predicate MapStep(s: seq<Area>, s': seq<Area>, start: int, end: int, flags: bv32, memory: bool, ret: int) {
    var free := UserAccess(start, end) && Unmapped(s, start, end);
    && ret == (if !free then -E_INVAL else if !memory then -E_NO_MEM else 0)
    && if ret == 0 then Remapped(s, s', start, end, flags & !VM_SHARE) else s' == s
  }

  ghost predicate UnmapStep(s: seq<Area>, st: State, s': seq<Area>, st': State, space: nat, start: int, end: int,
                            memory: bool, ret: int) {
    && ret == (if !UserAccess(start, end) then -E_INVAL else if !memory && Splits(s, start, end) then -E_NO_MEM else 0)
    && if ret == 0 then Subtracted(s, s', start, end) && Emptied(View(st), View(st'), space, start, end)
       else s' == s && st' == st
  }

  ghost predicate BrkStep(s: seq<Area>, st: State, s': seq<Area>, st': State, space: nat, start: int, end: int,
                          split: bool, memory: bool, ret: int) {
    && ret == (if !UserAccess(start, end) then -E_INVAL
               else if BrkFails(s, start, end, split, memory) then -E_NO_MEM else 0)
    && (ret == 0 ==> Remapped(s, s', start, end, VM_READ | VM_WRITE) && Emptied(View(st), View(st'), space, start, end))
    && (ret != 0 ==>
          || (s' == s && st' == st)
          || (ret == -E_NO_MEM && Subtracted(s, s', start, end) && Emptied(View(st), View(st'), space, start, end)))
  }

  ghost predicate LoadStep(s: seq<Area>, st: State, st': State, space: nat, addr: nat, luck: Luck,
                           r: Option<Content>) {
    var l := Loc(space, addr / PGSIZE);
    && (r.Some? <==> UserSucceeds(st, s, space, addr, false, luck))
    && (View(st') == View(st) || Gained(View(st), View(st'), l))
    && (r.Some? ==> l in View(st') && r.value == View(st')[l] && Flags(s, addr).Some?)
  }

  ghost predicate StoreStep(s: seq<Area>, st: State, st': State, space: nat, addr: nat, c: Content, luck: Luck,
                            done: bool) {
    && (done <==> UserSucceeds(st, s, space, addr, true, luck))
    && View(st') == (if done then View(st)[Loc(space, addr / PGSIZE) := c] else View(st))
    && (done ==> Flags(s, addr).Some? && Flags(s, addr).value & VM_WRITE != 0)
  }

  ghost predicate OwnStep(s: seq<Area>, st: State, s': seq<Area>, st': State, space: nat, a: Action, out: Outcome) {
    var addr, len := a.addr % TWO_32, a.len % TWO_32;
    var start, end := RoundDown(addr), RoundUp((addr + len) % TWO_32);
    match a.kind
    case MapAt(flags, memory) => out.Ret? && st' == st && MapStep(s, s', start, end, flags, memory, out.ret)
    case UnmapAt(memory) => out.Ret? && UnmapStep(s, st, s', st', space, start, end, memory, out.ret)
    case BrkAt(split, memory) => out.Ret? && BrkStep(s, st, s', st', space, start, end, split, memory, out.ret)
    case LoadAt(luck) => out.Loaded? && s' == s && LoadStep(s, st, st', space, addr, luck, out.r)
    case StoreAt(c, luck) => out.Stored? && s' == s && StoreStep(s, st, st', space, addr, c, luck, out.done)
  }

  /** Each page of the space went out, unless it had been accessed, or there is no slot for it. */
  ghost predicate AllVisited(st: State, st': State, space: nat) {
    forall va: nat :: Loc(space, va) in st.pt ==>
      && Loc(space, va) in st'.pt
      && var p, p' := st.pt[Loc(space, va)], st'.pt[Loc(space, va)];
         p'.Swapped? || (p.Present? && p' == p.(a := false) && (p.a || NoSlotFor(p.frame, st'.swap, st'.mem_map)))
  }

  /** swap_out_mm: the memory of nobody changes; up to `require` pages go out, and fewer only after a whole round. */
  ghost predicate SwapStep(s: seq<Area>, st: State, st': State, space: nat, swap_address: nat, require: nat,
                           free_count: nat) {
    && View(st') == View(st) && free_count <= require && |PresentIn(st'.pt)| == |PresentIn(st.pt)| - free_count
    && (free_count < require ==> AllVisited(st, st', space))
  }

  ghost predicate LaunderStep(st: State, st': State, failing: set<nat>, free_count: int) {
    && View(st') == View(st) && st'.pt == st.pt && |st'.free| == |st.free| + free_count
    && (forall f: nat :: f in st'.free <==> f in st.free || (f in st.inactive && MayFree(st, f, failing)))
    && st'.active == st.active + Among(st.inactive, ReferencedIn(st))
    && st'.inactive == Among(st.inactive, StuckIn(st, failing))
  }

  ghost predicate RefillStep(st: State, st': State) {
    && View(st') == View(st) && st'.pt == st.pt && st'.free == st.free
    && st'.active == Among(st.active, ReferencedIn(st))
    && st'.inactive == st.inactive + Among(st.active, UnreferencedIn(st))
  }

  /** What an operation does to the world; the areas of other spaces stay as they are. */
  ghost predicate WorldStep(a: World, op: Op, b: World, out: Outcome) {
    match op
    case Of(space, action) =>
      if space !in a.areas then b == a && out.Nothing?
      else
        && space in b.areas && b.areas == a.areas[space := b.areas[space]]
        && OwnStep(a.areas[space], a.st, b.areas[space], b.st, space, action, out)
    case Create(space) =>
      out.Nothing? && b == if space in a.areas || space >= MAX_SPACES then a else World(a.areas[space := []], a.st)
    case Fork(parent, child, luck) =>
      if parent !in a.areas || child in a.areas || child >= MAX_SPACES then b == a && out.Nothing?
      else if luck.created && Copies(a.st.pt, parent, a.areas[parent], luck) then
        && out == Ret(0) && b.areas == a.areas[child := a.areas[parent]]
        && SpaceCopied(View(a.st), View(b.st), parent, child)
      else
        out == Ret(-E_NO_MEM) && b.areas == a.areas && View(b.st) == View(a.st)
    case Exit(space) =>
      out.Nothing?
      && if space in a.areas then b.areas == a.areas - {space} && Left(View(a.st), View(b.st), space) else b == a
    case SwapOut(space, swap_address, require) =>
      if space !in a.areas then b == a && out.Nothing?
      else
        && b.areas == a.areas && out.Ret? && out.ret >= 0
        && SwapStep(a.areas[space], a.st, b.st, space, swap_address, require, out.ret)
    case Launder(failing) => b.areas == a.areas && out.Ret? && LaunderStep(a.st, b.st, failing, out.ret)
    case Refill => b.areas == a.areas && out.Nothing? && RefillStep(a.st, b.st)
  }

  ghost predicate WorldRun(trace: seq<World>, ops: seq<Op>, outs: seq<Outcome>) {
    && |trace| == |ops| + 1 && |outs| == |ops|
    && forall i :: 0 <= i < |ops| ==> WorldStep(trace[i], ops[i], trace[i + 1], outs[i])
  }

  // ---------- the pages that the swap daemon visits ----------

  /** The areas in pages. */
  ghost function RangesOf(s: seq<Area>): seq<(nat, nat)>
    requires Paged(s) && Ordered(s)
  {
    seq(|s|, i requires 0 <= i < |s| => RangeOf(s, i))
  }

  ghost function RangeOf(s: seq<Area>, i: nat): (nat, nat)
    requires Paged(s) && Ordered(s) && i < |s|
  {
    LastAreas(s, i);
    (s[i].start / PGSIZE, s[i].end / PGSIZE)
  }

  /** The areas of swap_out_mm, in pages. */
  method ListRanges(mm: Mm) returns (ranges: seq<(nat, nat)>)
    requires mm.Valid() && Paged(mm.Areas())
    ensures ranges == RangesOf(mm.Areas())
  {
    hide Ordered, Paged, At, RedBlack, Inorder, Mm.TreeHolds;
    ranges := [];
    for i := 0 to |mm.mmap_list|
      invariant |ranges| == i && forall j :: 0 <= j < i ==> ranges[j] == RangeOf(mm.Areas(), j)
    {
      LastAreas(mm.Areas(), i);
      assert mm.Areas()[i] == Area(mm.mmap_list[i].vm_start, mm.mmap_list[i].vm_end, mm.mmap_list[i].vm_flags);
      ranges := ranges + [(mm.mmap_list[i].vm_start / PGSIZE, mm.mmap_list[i].vm_end / PGSIZE)];
    }
  }

  lemma {:induction false} TimesSome(visits: seq<(nat, nat)>, j: nat, va: nat)
    requires j < |visits| && visits[j].0 <= va < visits[j].1
    ensures Times(visits, va) >= 1
  {
    if j < |visits| - 1 {
      TimesSome(visits[..|visits| - 1], j, va);
    }
  }

  /** A whole round visits each area. */
  lemma {:induction false} RoundVisits(ranges: seq<(nat, nat)>, k: nat, from: nat, i: nat, va: nat)
    requires k < |ranges| && i < |ranges| && ranges[i].0 <= va < ranges[i].1
    ensures Times(RoundFrom(ranges, k, from), va) >= 1
  {
    var all := RoundFrom(ranges, k, from);
    var j := if i > k then i - k else |ranges| - k + i;
    assert all[j] == ranges[i];
    TimesSome(all, j, va);
  }

  lemma {:induction false} NowhereToVisit(st: State, st': State, space: nat)
    requires InAreas(st.pt, space, [])
    ensures AllVisited(st, st', space)
  {
    assert forall va: nat :: Flags([], va * PGSIZE) == None;
  }

  /** Since all pages are in areas, a whole round visits all of them. */
  lemma {:induction false} WholeRound(st: State, st': State, s: seq<Area>, ranges: seq<(nat, nat)>, space: nat,
                                      swap_address: nat, visits: seq<(nat, nat)>, upto: nat)
    requires Ordered(s) && Paged(s) && InAreas(st.pt, space, s) && ranges == RangesOf(s)
    requires Round(ranges, swap_address, visits, true, upto)
    requires SweptOver(st.pt, st'.pt, space, visits, st'.swap, st'.mem_map)
    ensures AllVisited(st, st', space)
  {
    var k: nat, from: nat, i: nat :|
      Begins(ranges, swap_address, k, from) && IsPart(visits, RoundFrom(ranges, k, from), i, true, upto);
    forall va: nat | Loc(space, va) in st.pt
      ensures Times(visits, va) >= 1
    {
      FlagsHolds(s, va * PGSIZE);
      var j: nat :| j < |s| && s[j].Holds(va * PGSIZE);
      LastAreas(s, j);
      PageStart(s[j].start, s[j].end, va);
      assert ranges[j] == RangeOf(s, j);
      RoundVisits(ranges, k, from, j, va);
    }
  }

  lemma {:induction false} NoPages(pt: Table, space: nat)
    requires forall l :: l in pt ==> l.space != space
    ensures InAreas(pt, space, []) && Private([]) && Paged([])
  {
  }

  lemma {:induction false} NowhereWider(pt: Table, pt': Table, space: nat)
    requires NoWider(pt, pt', 0, 0, 0)
    ensures OnlySpace(pt, pt', space) && forall l :: l in pt' ==> l in pt
  {
  }

  lemma {:induction false} WiderOnly(pt: Table, pt': Table, space: nat)
    requires NoWider(pt, pt', space, 0, 0)
    ensures OnlySpace(pt, pt', space)
  {
  }

  lemma {:induction false} PrivateSubtracted(areas: seq<Area>, areas': seq<Area>, start: int, end: int)
    requires Private(areas) && Subtracted(areas, areas', start, end)
    ensures Private(areas')
  {
  }

  lemma {:induction false} PrivateBrk(areas: seq<Area>, areas': seq<Area>, start: int, end: int)
    requires Private(areas) && Remapped(areas, areas', start, end, VM_READ | VM_WRITE)
    ensures Private(areas')
  {
  }

  lemma {:induction false} PrivateMapped(areas: seq<Area>, areas': seq<Area>, start: int, end: int, flags: bv32)
    requires Private(areas) && Remapped(areas, areas', start, end, flags & !VM_SHARE)
    ensures Private(areas')
  {
    assert flags & !VM_SHARE & VM_SHARE == 0;
  }
}
