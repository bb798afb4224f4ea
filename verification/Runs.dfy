/**
 Whole runs of the memory machine: whatever is swapped, laundered and shared underneath, each address
 space has a memory of its own. The abstract machine below has no frames, no swap space and no sharing.
 */
module Runs {
  import opened Defs
  import opened Lists
  import opened Paging
  import opened PagingSteps
  import opened Swap
  import opened Fault

  /** What processes and the swap daemon may do. */
  datatype Step =
    | DoLoad(l: Loc, in_area: bool, flags: bv32, luck: Luck)
    | DoStore(l: Loc, c: Content, in_area: bool, flags: bv32, luck: Luck)
    | DoFork(from: nat, to: nat, start: nat, end: nat, missing: set<nat>)
    | DoUnmap(space: nat, start: nat, end: nat)
    | DoSwapOut(space: nat, areas: seq<(nat, nat)>, swap_address: nat, require: nat)
    | DoLaunder(failing: set<nat>)
    | DoRefill

  /** What a process gets back: the page that it loads, whether it has stored, up to where a fork has copied. */
  datatype Outcome = Loaded(r: Option<Content>) | Stored(done: bool) | Copied(upto: nat) | Done

  /** Private areas of existing address spaces, and ranges that are not empty. */
  predicate Legal(step: Step) {
    match step
    case DoLoad(l, _, flags, _) => l.space < MAX_SPACES && flags & VM_SHARE == 0
    case DoStore(l, _, _, flags, _) => l.space < MAX_SPACES && flags & VM_SHARE == 0
    case DoFork(from, to, start, end, missing) => from != to && to < MAX_SPACES && start < end
    case DoUnmap(_, start, end) => start < end
    case _ => true
  }

  type Private = map<Loc, Content>

  ghost predicate Unmapped(a: Private, b: Private, space: nat, start: nat, end: nat) {
    && (forall l :: l in b <==> l in a && !(l.space == space && start <= l.va < end))
    && (forall l :: l in b ==> b[l] == a[l])
  }

  /**
   The abstract machine: one private memory for each address space; a step may also fail without effect. A load
   gives what is there afterwards, and only a page that was not there has contents from nowhere.
   */
  ghost predicate AbstractStep(a: Private, step: Step, b: Private, out: Outcome) {
    match step
    case DoLoad(l, _, _, _) => out.Loaded? && LoadStep(a, l, b, out.r)
    case DoStore(l, c, _, _, _) => out.Stored? && b == if out.done then a[l := c] else a
    case DoFork(from, to, start, end, missing) =>
      out.Copied? && start <= out.upto && (start <= end ==> out.upto <= end) && Forked(a, b, from, to, start, out.upto)
    case DoUnmap(space, start, end) => out.Done? && Unmapped(a, b, space, start, end)
    case _ => out.Done? && b == a
  }

  ghost predicate LoadStep(a: Private, l: Loc, b: Private, r: Option<Content>) {
    match r
    case None => b == a
    case Some(v) => (b == a || Gained(a, b, l)) && l in b && b[l] == v
  }

  /** One step of the machine is a step of the abstract one. */
  method RunStep(m: Memory, step: Step) returns (out: Outcome)
    requires Inv(m.St(), {}, None, None) && m.Counted() && Legal(step)
    modifies m
    ensures m.Counted()
    ensures Inv(m.St(), {}, None, None)
    ensures AbstractStep(old(m.Memories()), step, m.Memories(), out)
    ensures step.DoLoad? ==>
      (out.r.Some? <==> Succeeds(old(m.St()), step.l, false, step.in_area, step.flags, step.luck))
    ensures step.DoStore? ==>
      (out.done <==> Succeeds(old(m.St()), step.l, true, step.in_area, step.flags, step.luck))
    ensures step.DoFork? && (forall l :: l in old(m.pt) ==> l.space != step.to) ==>
      (out.upto == step.end <==> NoneMissing(old(m.pt), step.from, step.start, step.end, step.missing))
    ensures step.DoSwapOut? && step.require > 0 && step.areas != [] ==>
      exists visits, whole, upto ::
        Round(step.areas, step.swap_address, visits, whole, upto)
        && SweptOver(old(m.pt), m.pt, step.space, visits, m.page_swap, m.mem_map)
        && |PresentIn(m.pt)| >= |PresentIn(old(m.pt))| - step.require
        && (!whole ==> |PresentIn(m.pt)| == |PresentIn(old(m.pt))| - step.require)
    ensures step.DoLaunder? ==> m.inactive_list == Among(old(m.inactive_list), StuckIn(old(m.St()), step.failing))
    ensures step.DoLaunder? ==> forall f: nat ::
      f in m.free <==> f in old(m.free) || (f in old(m.inactive_list) && MayFree(old(m.St()), f, step.failing))
    ensures step.DoRefill? ==> m.active_list == Among(old(m.active_list), ReferencedIn(old(m.St())))
  {
    hide Inv, View, Forked, Grants, Gained, FreshFrame, Round, SweptOver, PresentIn, Among, StuckIn, MayFree;
    hide ReferencedIn;
    out := Done;
    match step {
      case DoLoad(l, in_area, flags, luck) =>
        var r := LoadAccess(m, l, in_area, flags, luck);
        out := Loaded(r);
      case DoStore(l, c, in_area, flags, luck) =>
        var done := StoreAccess(m, l, c, in_area, flags, luck);
        out := Stored(done);
      case DoFork(from, to, start, end, missing) =>
        var busy := exists l :: l in m.pt && l.space == to;
        if busy {
          ForkedNone(m.Memories(), from, to, start);
          out := Copied(start);
        } else {
          var ret;
          var upto;
          ret, upto := CopyRange(m, to, from, start, end, missing);
          out := Copied(upto);
        }
      case DoUnmap(space, start, end) =>
        UnmapRange(m, space, start, end);
      case DoSwapOut(space, areas, swap_address, require) =>
        var n, next;
        ghost var visits;
        n, next, visits := m.SwapOutMm(space, areas, swap_address, require);
      case DoLaunder(failing) =>
        var n := m.PageLaunder(failing);
      case DoRefill =>
        m.RefillInactiveScan();
    }
  }

  /** A run of the abstract machine. */
  ghost predicate AbstractRun(trace: seq<Private>, steps: seq<Step>, outs: seq<Outcome>) {
    && |trace| == |steps| + 1 && |outs| == |steps|
    && forall i :: 0 <= i < |steps| ==> AbstractStep(trace[i], steps[i], trace[i + 1], outs[i])
  }

  /** Every run keeps the invariant, and is a run of the abstract machine, with the same results. */
  method Run(m: Memory, steps: seq<Step>) returns (ghost trace: seq<Private>, outs: seq<Outcome>)
    requires Inv(m.St(), {}, None, None) && m.Counted() && forall i :: 0 <= i < |steps| ==> Legal(steps[i])
    modifies m
    ensures m.Counted()
    ensures Inv(m.St(), {}, None, None)
    ensures AbstractRun(trace, steps, outs) && trace[0] == old(m.Memories()) && trace[|steps|] == m.Memories()
  {
    hide Inv, View, AbstractStep;
    trace, outs := [m.Memories()], [];
    for k := 0 to |steps|
      invariant m.Counted()
      invariant Inv(m.St(), {}, None, None)
      invariant AbstractRun(trace, steps[..k], outs) && trace[0] == old(m.Memories()) && trace[k] == m.Memories()
    {
      var out := RunStep(m, steps[k]);
      trace, outs := trace + [m.Memories()], outs + [out];
    }
    assert steps[..|steps|] == steps;
  }

  // ---------- others do not change a memory ----------

  /** The steps of a run that may change the memory of an address space: its own, and a fork into it. */
  predicate Concerns(step: Step, space: nat) {
    match step
    case DoLoad(l, _, _, _) => l.space == space
    case DoStore(l, _, _, _, _) => l.space == space
    case DoFork(_, to, _, _, _) => to == space
    case DoUnmap(s, _, _) => s == space
    case _ => false
  }

  /** The memory of one address space. */
  ghost function Own(a: Private, space: nat): map<nat, Content> {
    map l | l in a && l.space == space :: l.va := a[l]
  }

  /** The steps of others do not change a memory, in any run. */
  lemma {:induction false} Isolation(trace: seq<Private>, steps: seq<Step>, outs: seq<Outcome>, space: nat)
    requires AbstractRun(trace, steps, outs) && forall i :: 0 <= i < |steps| ==> !Concerns(steps[i], space)
    ensures Own(trace[0], space) == Own(trace[|steps|], space)
    decreases |steps|
  {
    if steps != [] {
      var n := |steps| - 1;
      Isolation(trace[..n + 1], steps[..n], outs[..n], space);
      StepIsolation(trace[n], steps[n], trace[n + 1], outs[n], space);
    }
  }

  lemma {:induction false} StepIsolation(a: Private, step: Step, b: Private, out: Outcome, space: nat)
    requires AbstractStep(a, step, b, out) && !Concerns(step, space)
    ensures Own(a, space) == Own(b, space)
  {
    SameOwn(a, b, space);
  }

  lemma {:induction false} SameOwn(a: Private, b: Private, space: nat)
    requires forall l: Loc :: l.space == space ==> (l in a <==> l in b) && (l in a ==> a[l] == b[l])
    ensures Own(a, space) == Own(b, space)
  {
    forall va: nat
      ensures va in Own(a, space) <==> Loc(space, va) in a
      ensures va in Own(b, space) <==> Loc(space, va) in b
    {
      OwnAt(a, space, va);
      OwnAt(b, space, va);
    }
  }

  lemma {:induction false} OwnAt(a: Private, space: nat, va: nat)
    ensures va in Own(a, space) <==> Loc(space, va) in a
    ensures va in Own(a, space) ==> Own(a, space)[va] == a[Loc(space, va)]
  {
    assert Loc(space, va) in a ==> Loc(space, va).va in Own(a, space);
  }

  // ---------- what a process sees ----------

  /**
   What happens in one address space: a load, with the contents of the page if that was not there; a store; pages that
   are given up; and pages that come from its parent.
   */
  datatype Item =
    | Read(va: nat, new_page: Option<Content>)
    | Write(va: nat, c: Content)
    | Clear(start: nat, end: nat)
    | Receive(pages: map<nat, Content>)

  ghost function ItemsOf(a: Private, step: Step, b: Private, out: Outcome, space: nat): seq<Item> {
    match step
    case DoLoad(l, _, _, _) =>
      if l.space == space && out.Loaded? && out.r.Some? && l in b
      then [Read(l.va, if l in a then None else Some(b[l]))] else []
    case DoStore(l, c, _, _, _) => if l.space == space && out == Stored(true) then [Write(l.va, c)] else []
    case DoFork(from, to, start, end, missing) =>
      if to == space && out.Copied? then [Receive(Part(Own(a, from), start, out.upto))] else []
    case DoUnmap(s, start, end) => if s == space then [Clear(start, end)] else []
    case _ => []
  }

  ghost function Part(own: map<nat, Content>, start: nat, end: nat): map<nat, Content> {
    map va | va in own && start <= va < end :: own[va]
  }

  ghost function Apply(own: map<nat, Content>, item: Item): map<nat, Content> {
    match item
    case Read(va, new_page) => if new_page.Some? then own[va := new_page.value] else own
    case Write(va, c) => own[va := c]
    case Clear(start, end) => map va | va in own && !(start <= va < end) :: own[va]
    case Receive(pages) => own + pages
  }

  /** A machine for one address space alone: its memory after these items, and what its loads give. */
  ghost function Replay(own: map<nat, Content>, items: seq<Item>): map<nat, Content> {
    if items == [] then own else Apply(Replay(own, items[..|items| - 1]), items[|items| - 1])
  }

  ghost function Reads(own: map<nat, Content>, items: seq<Item>): seq<Content> {
    if items == [] then []
    else
      var n := |items| - 1;
      var now := Replay(own, items);
      Reads(own, items[..n]) + if items[n].Read? && items[n].va in now then [now[items[n].va]] else []
  }

  /** The items of a run for one address space, and what its loads give in the run. */
  ghost function Items(trace: seq<Private>, steps: seq<Step>, outs: seq<Outcome>, space: nat): seq<Item>
    requires |trace| == |steps| + 1 && |outs| == |steps|
  {
    if steps == [] then []
    else
      var n := |steps| - 1;
      Items(trace[..n + 1], steps[..n], outs[..n], space) + ItemsOf(trace[n], steps[n], trace[n + 1], outs[n], space)
  }

  ghost function Results(steps: seq<Step>, outs: seq<Outcome>, space: nat): seq<Content>
    requires |outs| == |steps|
  {
    if steps == [] then []
    else
      var n := |steps| - 1;
      Results(steps[..n], outs[..n], space) + ResultOf(steps[n], outs[n], space)
  }

  ghost function ResultOf(step: Step, out: Outcome, space: nat): seq<Content> {
    if step.DoLoad? && step.l.space == space && out.Loaded? && out.r.Some? then [out.r.value] else []
  }

  lemma {:induction false} ReplayOne(own: map<nat, Content>, item: Item)
    ensures Replay(own, [item]) == Apply(own, item)
    ensures Reads(own, [item]) ==
            if item.Read? && item.va in Apply(own, item) then [Apply(own, item)[item.va]] else []
  {
    assert [item][..0] == [];
  }

  lemma {:induction false} LoadReplays(a: Private, l: Loc, b: Private, v: Content)
    requires LoadStep(a, l, b, Some(v))
    ensures l in b && b[l] == v
    ensures var item := Read(l.va, if l in a then None else Some(b[l]));
            Own(b, l.space) == Apply(Own(a, l.space), item) && l.va in Own(b, l.space) && Own(b, l.space)[l.va] == v
  {
    OwnAt(b, l.space, l.va);
    if b == a[l := b[l]] && l !in a {
      OwnStored(a, l, b[l]);
    }
  }

  lemma {:induction false} OwnStored(a: Private, l: Loc, c: Content)
    ensures Own(a[l := c], l.space) == Own(a, l.space)[l.va := c]
  {
    forall va: nat
      ensures va in Own(a[l := c], l.space) <==> va in Own(a, l.space) || va == l.va
    {
      OwnAt(a, l.space, va);
      OwnAt(a[l := c], l.space, va);
    }
  }

  lemma {:induction false} UnmapReplays(a: Private, b: Private, space: nat, start: nat, end: nat)
    requires Unmapped(a, b, space, start, end)
    ensures Own(b, space) == Apply(Own(a, space), Clear(start, end))
  {
    forall va: nat
      ensures va in Own(b, space) <==> va in Own(a, space) && !(start <= va < end)
      ensures va in Own(b, space) ==> Own(b, space)[va] == Own(a, space)[va]
    {
      OwnAt(a, space, va);
      OwnAt(b, space, va);
    }
  }

  lemma {:induction false} ForkReplays(a: Private, b: Private, from: nat, to: nat, start: nat, end: nat)
    requires Forked(a, b, from, to, start, end)
    ensures Own(b, to) == Apply(Own(a, to), Receive(Part(Own(a, from), start, end)))
  {
    hide Own, Part;
    var part := Part(Own(a, from), start, end);
    forall va: nat
      ensures va in Own(b, to) <==> va in Own(a, to) || va in part
      ensures va in Own(b, to) ==> Own(b, to)[va] == if va in part then part[va] else Own(a, to)[va]
    {
      ForkedAt(a, b, from, to, start, end, va);
    }
  }

  lemma {:induction false} ForkedAt(a: Private, b: Private, from: nat, to: nat, start: nat, end: nat, va: nat)
    requires Forked(a, b, from, to, start, end)
    ensures va in Own(b, to) <==> va in Own(a, to) || va in Part(Own(a, from), start, end)
    ensures va in Part(Own(a, from), start, end) ==>
              va in Own(b, to) && Own(b, to)[va] == Part(Own(a, from), start, end)[va]
    ensures va in Own(a, to) && va !in Part(Own(a, from), start, end) ==> Own(b, to)[va] == Own(a, to)[va]
  {
    OwnAt(a, from, va);
    OwnAt(a, to, va);
    OwnAt(b, to, va);
    hide Own;
    assert Loc(from, va) in a && start <= va < end ==> Loc(to, va) in b && b[Loc(to, va)] == a[Loc(from, va)];
    assert Loc(to, va) in a ==> Loc(to, va) in b && b[Loc(to, va)] == a[Loc(to, va)];
  }

  /** One step is its items, for every address space. */
  lemma {:induction false} StepReplays(a: Private, step: Step, b: Private, out: Outcome, space: nat)
    requires AbstractStep(a, step, b, out)
    ensures var items := ItemsOf(a, step, b, out, space);
            && Own(b, space) == Replay(Own(a, space), items)
            && ResultOf(step, out, space) == Reads(Own(a, space), items)
  {
    hide Forked, Unmapped, LoadStep, Apply, Part, Own, Replay, Reads;
    var items, own := ItemsOf(a, step, b, out, space), Own(a, space);
    NoItems(own);
    if items != [] {
      ReplayOne(own, items[0]);
      ItemReplays(a, step, b, out, space);
    } else {
      NothingHappens(a, step, b, out, space);
    }
  }

  lemma {:induction false} NoItems(own: map<nat, Content>)
    ensures Replay(own, []) == own && Reads(own, []) == []
  {
  }

  lemma {:induction false} ItemReplays(a: Private, step: Step, b: Private, out: Outcome, space: nat)
    requires AbstractStep(a, step, b, out) && ItemsOf(a, step, b, out, space) != []
    ensures var item := ItemsOf(a, step, b, out, space)[0];
            && ItemsOf(a, step, b, out, space) == [item] && Own(b, space) == Apply(Own(a, space), item)
            && (item.Read? ==> item.va in Own(b, space) && ResultOf(step, out, space) == [Own(b, space)[item.va]])
            && (!item.Read? ==> ResultOf(step, out, space) == [])
  {
    hide Forked, Unmapped, LoadStep, Part, Own;
    match step {
      case DoLoad(l, _, _, _) => LoadReplays(a, l, b, out.r.value);
      case DoStore(l, c, _, _, _) => OwnStored(a, l, c);
      case DoFork(from, to, start, end, missing) => ForkReplays(a, b, from, to, start, out.upto);
      case DoUnmap(s, start, end) => UnmapReplays(a, b, s, start, end);
      case _ =>
    }
  }

  lemma {:induction false} NothingHappens(a: Private, step: Step, b: Private, out: Outcome, space: nat)
    requires AbstractStep(a, step, b, out) && ItemsOf(a, step, b, out, space) == []
    ensures Own(b, space) == Own(a, space) && ResultOf(step, out, space) == []
  {
    if Concerns(step, space) {
      assert b == a;
    } else {
      StepIsolation(a, step, b, out, space);
    }
  }

  /** Replaying one part of the items after the other. */
  lemma {:induction false} ReplayConcat(own: map<nat, Content>, xs: seq<Item>, ys: seq<Item>)
    ensures Replay(own, xs + ys) == Replay(Replay(own, xs), ys)
    ensures Reads(own, xs + ys) == Reads(own, xs) + Reads(Replay(own, xs), ys)
    decreases |ys|
  {
    if ys == [] {
      assert xs + ys == xs;
    } else {
      var n := |ys| - 1;
      ReplayConcat(own, xs, ys[..n]);
      assert (xs + ys)[..|xs + ys| - 1] == xs + ys[..n] && (xs + ys)[|xs + ys| - 1] == ys[n];
    }
  }

  /**
   What a process sees in any run is what a machine with its address space alone would give it: its loads are
   determined by its own steps, the forks into it, and the contents of pages that were not there before.
   */
  lemma {:induction false} SeesOwn(trace: seq<Private>, steps: seq<Step>, outs: seq<Outcome>, space: nat)
    requires AbstractRun(trace, steps, outs)
    ensures Own(trace[|steps|], space) == Replay(Own(trace[0], space), Items(trace, steps, outs, space))
    ensures Results(steps, outs, space) == Reads(Own(trace[0], space), Items(trace, steps, outs, space))
    decreases |steps|
  {
    hide AbstractStep, ItemsOf, ResultOf, Replay, Reads, Own;
    var own := Own(trace[0], space);
    NoItems(own);
    if steps != [] {
      var n := |steps| - 1;
      SeesOwn(trace[..n + 1], steps[..n], outs[..n], space);
      var before, last := Items(trace[..n + 1], steps[..n], outs[..n], space),
                          ItemsOf(trace[n], steps[n], trace[n + 1], outs[n], space);
      StepReplays(trace[n], steps[n], trace[n + 1], outs[n], space);
      ReplayConcat(own, before, last);
    }
  }

  /** So two runs in which the same happens in an address space are the same to its process. */
  lemma {:induction false} NothingElseSeen(trace: seq<Private>, steps: seq<Step>, outs: seq<Outcome>,
                                           trace': seq<Private>, steps': seq<Step>, outs': seq<Outcome>, space: nat)
    requires AbstractRun(trace, steps, outs) && AbstractRun(trace', steps', outs')
    requires Own(trace[0], space) == Own(trace'[0], space)
    requires Items(trace, steps, outs, space) == Items(trace', steps', outs', space)
    ensures Results(steps, outs, space) == Results(steps', outs', space)
    ensures Own(trace[|steps|], space) == Own(trace'[|steps'|], space)
  {
    SeesOwn(trace, steps, outs, space);
    SeesOwn(trace', steps', outs', space);
  }

  // ---------- a page that was not there ----------

  /** A load can give nothing but what the process had there if, and only if, the page was there. */
  lemma {:induction false} LoadResults(a: Private, l: Loc, in_area: bool, flags: bv32, luck: Luck, v: Content)
    ensures (exists b :: AbstractStep(a, DoLoad(l, in_area, flags, luck), b, Loaded(Some(v)))) <==>
            (l in a ==> a[l] == v)
  {
    var step := DoLoad(l, in_area, flags, luck);
    if l in a ==> a[l] == v {
      var b := if l in a then a else a[l := v];
      assert l !in a ==> b == a[l := b[l]];
      assert AbstractStep(a, step, b, Loaded(Some(v)));
    }
    forall b | AbstractStep(a, step, b, Loaded(Some(v)))
      ensures l in a ==> a[l] == v
    {
      assert LoadStep(a, l, b, Some(v));
    }
  }

  /** With nothing mapped, a frame without a swap entry is free. */
  lemma {:induction false} FreeAgain(s: State, f: nat)
    requires Inv(s, {}, None, None) && s.pt == map[] && f < |s.swap| && !s.swap[f]
    ensures f in s.free
  {
    assert MapsOf(s.pt, f) == {};
  }

  /**
   And then it may be what somebody else has stored: a process stores a page and unmaps it, and another process that
   loads a page for the first time gets its contents.
   */
  method Leak(c: Content) returns (r: Option<Content>)
    ensures r == Some(c)
  {
    hide Inv, View, Grants, Gained, HashOk, CacheOk;
    var luck, flags := Luck(true, true, true, true), VM_READ | VM_WRITE;
    var m := new Memory(1, 1024);
    assert 0 in m.free;
    SizesOf(m.St(), {}, None, None);
    var done := StoreAccess(m, Loc(0, 7), c, true, flags, luck);
    SizesOf(m.St(), {}, None, None);
    assert m.mem == [c];
    UnmapRange(m, 0, 7, 8);
    ViewKeys(m.St());
    assert m.pt.Keys == {};
    FreeAgain(m.St(), 0);
    r := LoadAccess(m, Loc(1, 9), true, flags, luck);
  }
}
