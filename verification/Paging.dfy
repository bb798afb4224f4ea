/**
 The state of demand paging, copy-on-write and swap (kern/mm/pmm.c, kern/mm/swap.c, kern/mm/vmm.c) for
 private mappings, what holds of it at all times, and what each address space has in its memory.
 */
module Paging {
  import opened Lists

  const SWAP_UNUSED: int := 0xFFFF
  const MAX_SWAP_REF: int := 0xFFFE
  const HASH_LIST_SIZE: int := 1024
  /** MAX_PROCESS: no more address spaces than processes. */
  const MAX_SPACES: nat := 4096

  /** A page of an address space; `va` is the page number, the address being `va` times PGSIZE. */
  datatype Loc = Loc(space: nat, va: nat)

  /** A page table entry that is not zero: a frame with PTE_W, PTE_A and PTE_D, or a swap entry. */
  datatype Pte = Present(frame: nat, w: bool, a: bool, d: bool) | Swapped(slot: nat)

  type Table = map<Loc, Pte>
  type Content = seq<bv8>

  /** What a page table entry stands for: a frame that has no swap entry, or a swap entry, in memory or not. */
  datatype Obj = Anon(frame: nat) | Slot(slot: nat)

  function ObjOf(swap: seq<bool>, index: seq<nat>, p: Pte): Obj {
    match p
    case Present(f, _, _, _) => if f < |swap| && f < |index| && swap[f] then Slot(index[f]) else Anon(f)
    case Swapped(o) => Slot(o)
  }

  predicate Maps(p: Pte, f: nat) {
    p.Present? && p.frame == f
  }

  predicate Holds(p: Pte, o: nat) {
    p == Swapped(o)
  }

  predicate Writable(p: Pte) {
    p.Present? && p.w
  }

  /** Outside of the pages `start` to `end` of `space` there are no new entries, and none becomes writable. */
  ghost predicate NoWider(pt: Table, pt': Table, space: nat, start: nat, end: nat) {
    forall l :: l in pt' && !(l.space == space && start <= l.va < end) ==>
      l in pt && (Writable(pt'[l]) ==> Writable(pt[l]))
  }

  /** The entries that map a frame, and those that hold a swap entry. */
  ghost function MapsOf(pt: Table, f: nat): set<Loc> {
    set l | l in pt && Maps(pt[l], f)
  }

  ghost function HoldsOf(pt: Table, o: nat): set<Loc> {
    set l | l in pt && Holds(pt[l], o)
  }

  /** entry_hashfn: hash32 of the entry (libs/hash.c), the entry being the offset shifted by 8. */
  function Hash(o: nat): (r: nat)
    ensures r < HASH_LIST_SIZE
  {
    (o * 0x100 * 0x9E37_0001 % 0x1_0000_0000) / 0x40_0000
  }

  /** The frames 0 to n - 1. */
  function FramesBelow(n: nat): (r: set<nat>)
    ensures forall f: nat :: f in r <==> f < n
  {
    if n == 0 then {} else FramesBelow(n - 1) + {n - 1}
  }

  // ---------- what holds at all times ----------

  /** Entries refer to frames in use and to slots in use. */
  ghost predicate PteOk(pt: Table, n: nat, free: set<nat>, mem_map: seq<int>) {
    forall l :: l in pt ==> l.space < MAX_SPACES && EntryOk(pt[l], n, free, mem_map)
  }

  ghost predicate EntryOk(p: Pte, n: nat, free: set<nat>, mem_map: seq<int>) {
    match p
    case Present(f, _, _, _) => f < n && f !in free
    case Swapped(o) => 1 <= o < |mem_map| && mem_map[o] != SWAP_UNUSED
  }

  /** page_ref counts the entries that map the frame, and the reference that page_insert is about to use. */
  ghost predicate RefOk(pt: Table, ref: seq<int>, pin: Option<nat>) {
    forall f :: 0 <= f < |ref| ==> ref[f] == |MapsOf(pt, f)| + if pin == Some(f) then 1 else 0
  }

  /** A frame is free, or it is mapped or has a swap entry, or it is in hand. */
  ghost predicate UsedOk(pt: Table, swap: seq<bool>, free: set<nat>, held: set<nat>, pin: Option<nat>) {
    && (forall f: nat :: f in free ==> f < |swap| && !swap[f] && f !in held && pin != Some(f))
    && (forall f: nat :: f in held ==> f < |swap| && !swap[f] && MapsOf(pt, f) == {})
    && (forall f :: 0 <= f < |swap| ==> f in free || f in held || swap[f] || pin == Some(f) || MapsOf(pt, f) != {})
  }

  /** mem_map counts the entries that hold the slot; a slot is unused just when no entry and no frame has it. */
  ghost predicate SlotOk(pt: Table, mem_map: seq<int>, cache: map<nat, nat>) {
    forall o :: 1 <= o < |mem_map| ==>
      if mem_map[o] == SWAP_UNUSED then HoldsOf(pt, o) == {} && o !in cache
      else mem_map[o] == |HoldsOf(pt, o)| && (mem_map[o] > 0 || o in cache)
  }

  /** The frames that have a swap entry, by that entry. */
  ghost predicate CacheOk(swap: seq<bool>, index: seq<nat>, cache: map<nat, nat>, slots: nat) {
    && |index| == |swap|
    && (forall o :: o in cache ==> 1 <= o < slots && cache[o] < |swap| && swap[cache[o]] && index[cache[o]] == o)
    && (forall f :: 0 <= f < |swap| && swap[f] ==> index[f] in cache && cache[index[f]] == f)
  }

  /** Each frame with a swap entry is in the bucket of its entry, once. */
  ghost predicate HashOk(swap: seq<bool>, index: seq<nat>, hash: seq<seq<nat>>) {
    && |hash| == HASH_LIST_SIZE && |index| == |swap|
    && (forall i :: 0 <= i < |hash| ==> NoDup(hash[i]))
    && (forall i, f: nat {:trigger f in hash[i]} :: 0 <= i < |hash| ==>
          (f in hash[i] <==> f < |swap| && swap[f] && Hash(index[f]) == i))
  }

  /** And on exactly one of the two lists, which PG_active tells. */
  ghost predicate LruOk(swap: seq<bool>, act: seq<bool>, active: seq<nat>, inactive: seq<nat>) {
    && |act| == |swap| && NoDup(active) && NoDup(inactive)
    && (forall f: nat :: f in active <==> f < |swap| && swap[f] && act[f])
    && (forall f: nat :: f in inactive <==> f < |swap| && swap[f] && !act[f])
  }

  /** The frame is dirty by its flag or by an entry; a pending store counts. */
  ghost predicate Dirty(pt: Table, dirty: seq<bool>, pend: Option<Loc>, f: nat)
    requires f < |dirty|
  {
    dirty[f] || exists l :: l in pt && Maps(pt[l], f) && (pt[l].d || pend == Some(l))
  }

  /** A frame with a swap entry that is not dirty is the same as its slot. */
  ghost predicate CleanOk(pt: Table, swap: seq<bool>, index: seq<nat>, dirty: seq<bool>, mem: seq<Content>,
                          disk: seq<Content>, pend: Option<Loc>)
  {
    && |index| == |dirty| == |mem| == |swap|
    && forall f :: 0 <= f < |swap| && swap[f] && index[f] < |disk| && mem[f] != disk[index[f]] ==>
        Dirty(pt, dirty, pend, f)
  }

  /** Entries that stand for the same page are at the same address of different spaces, and none is writable. */
  ghost predicate PairOk(pt: Table, swap: seq<bool>, index: seq<nat>) {
    forall l, k :: l in pt && k in pt && l != k && ObjOf(swap, index, pt[l]) == ObjOf(swap, index, pt[k]) ==>
      l.va == k.va && !Writable(pt[l]) && !Writable(pt[k])
  }

  /** The machine: page tables, frame descriptors, swap tables and lists, contents of memory and disk. */
  datatype State = State(pt: Table, ref: seq<int>, swap: seq<bool>, index: seq<nat>, act: seq<bool>, dirty: seq<bool>,
                         free: set<nat>, mem_map: seq<int>, active: seq<nat>, inactive: seq<nat>, hash: seq<seq<nat>>,
                         cache: map<nat, nat>, mem: seq<Content>, disk: seq<Content>)

  ghost predicate Sizes(s: State) {
    && |s.ref| == |s.swap| == |s.index| == |s.act| == |s.dirty| == |s.mem|
    && |s.mem_map| == |s.disk| && |s.mem_map| >= 1024 && |s.hash| == HASH_LIST_SIZE
  }

  /** `held` are frames in hand, `pin` is a frame with a reference too many, at `pend` a store is to come. */
  ghost predicate Inv(s: State, held: set<nat>, pin: Option<nat>, pend: Option<Loc>) {
    && Sizes(s)
    && PteOk(s.pt, |s.swap|, s.free, s.mem_map)
    && RefOk(s.pt, s.ref, pin)
    && UsedOk(s.pt, s.swap, s.free, held, pin)
    && SlotOk(s.pt, s.mem_map, s.cache)
    && CacheOk(s.swap, s.index, s.cache, |s.mem_map|)
    && HashOk(s.swap, s.index, s.hash)
    && LruOk(s.swap, s.act, s.active, s.inactive)
    && CleanOk(s.pt, s.swap, s.index, s.dirty, s.mem, s.disk, pend)
    && PairOk(s.pt, s.swap, s.index)
  }

  // ---------- the memory of the address spaces ----------

  /** The contents of a page: in its frame if it has one, else in its slot. */
  ghost function ValOf(swap: seq<bool>, index: seq<nat>, cache: map<nat, nat>, mem: seq<Content>, disk: seq<Content>,
                       p: Pte): Content {
    match p
    case Present(f, _, _, _) => if f < |mem| then mem[f] else []
    case Swapped(o) =>
      if o in cache then (if cache[o] < |mem| then mem[cache[o]] else [])
      else if o < |disk| then disk[o] else []
  }

  /** What each mapped page of each address space holds. */
  ghost function View(s: State): map<Loc, Content> {
    map l | l in s.pt :: ValOf(s.swap, s.index, s.cache, s.mem, s.disk, s.pt[l])
  }
}
