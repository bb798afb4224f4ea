/**
 The user heap (user/libs/malloc.c): a circular list of free blocks, held in the memory that it manages.
 Addresses are in units of a header; what the kernel gives on request is a parameter.
 */
module Malloc {
  import opened Defs
  import opened FreeLists
  import opened Lists

  datatype Header = Header(ptr: int, size: int, typ: bool)

  type Mem = map<int, Header>

  /** What sys_brk or sys_shmem does: nothing, or a region of that many units. */
  datatype Region = Refused | Got(addr: int, size: int)

  // ---------- the list in memory ----------

  function NextIdx(n: nat, i: nat): (j: nat)
    requires i < n
    ensures j < n
  {
    if i + 1 < n then i + 1 else 0
  }

  /** The headers of the free blocks are linked in address order, and the last one to the first. */
  ghost predicate Linked(mem: Mem, nodes: seq<Node>) {
    forall i: nat :: i < |nodes| ==>
      nodes[i].addr in mem && mem[nodes[i].addr] == Header(nodes[NextIdx(|nodes|, i)].addr, nodes[i].size, nodes[i].typ)
  }

  /** A block that is apart from another one, and not below the header at the base. */
  ghost predicate Apart(a: Node, b: Node) {
    a.End() <= b.addr || b.End() <= a.addr
  }

  ghost predicate ApartFrom(nodes: seq<Node>, b: Node) {
    nodes != [] && nodes[0].addr < b.addr && forall i :: 0 <= i < |nodes| ==> Apart(nodes[i], b)
  }

  /** Blocks in use have their size and type in the header, and are apart from each other and from the free ones. */
  ghost predicate LiveOk(mem: Mem, nodes: seq<Node>, live: set<Node>) {
    && (forall b :: b in live ==> b.size >= 1 && ApartFrom(nodes, b))
    && (forall b :: b in live ==> b.addr in mem && mem[b.addr].size == b.size && mem[b.addr].typ == b.typ)
    && (forall b, c :: b in live && c in live && b != c ==> Apart(b, c))
  }

  /** Where a block belongs in the list. */
  lemma {:induction false} GapOf(nodes: seq<Node>, b: Node) returns (k: nat)
    requires Ok(nodes) && ApartFrom(nodes, b) && b.size >= 1
    ensures Gap(nodes, k, b)
  {
    k := 0;
    while k + 1 < |nodes| && nodes[k + 1].addr < b.addr
      invariant k < |nodes| && nodes[k].addr < b.addr
    {
      k := k + 1;
    }
    assert Apart(nodes[k], b);
    if k + 1 < |nodes| {
      assert Apart(nodes[k + 1], b) && nodes[k + 1].size >= 1;
    }
  }

  lemma {:induction false} GapAbove(nodes: seq<Node>, b: Node, k: nat, i: nat)
    requires Ok(nodes) && Gap(nodes, k, b) && k < i < |nodes|
    ensures b.addr < b.End() <= nodes[i].addr
  {
    if k + 1 < i {
      Ordered(nodes, k + 1, i);
    }
  }

  lemma {:induction false} GapUnique(nodes: seq<Node>, b: Node, k: nat, k': nat)
    requires Ok(nodes) && Gap(nodes, k, b) && Gap(nodes, k', b)
    ensures k == k'
  {
    hide Ok;
    if k < k' {
      GapAbove(nodes, b, k, k');
    } else if k' < k {
      GapAbove(nodes, b, k', k);
    }
  }

  /** Only where the block belongs do the tests of free_locked end its search. */
  lemma {:induction false} SearchEnds(nodes: seq<Node>, b: Node, k: nat, i: nat)
    requires Ok(nodes) && Gap(nodes, k, b) && i < |nodes|
    ensures var p, next := nodes[i].addr, nodes[NextIdx(|nodes|, i)].addr;
            ((b.addr > p && b.addr < next) || (p >= next && (b.addr > p || b.addr < next))) <==> i == k
  {
    if i < k {
      Ordered(nodes, i, k);
      if i + 1 < k {
        Ordered(nodes, i + 1, k);
      }
    } else if i > k {
      Ordered(nodes, k, i);
      if i > k + 1 {
        Ordered(nodes, k + 1, i);
      }
    }
    if i + 1 < |nodes| {
      Ordered(nodes, i, i + 1);
    } else if i > 0 {
      Ordered(nodes, 0, i);
    }
    if k > 0 {
      Ordered(nodes, 0, k);
    }
  }

  /** How far it is from `i` to `k`, around the list. */
  function Distance(n: nat, i: nat, k: nat): (d: int) {
    if i <= k then k - i else k - i + n
  }

  /** The header of the freed block when it has been joined with the next one, if they touch. */
  function Joined(mem: Mem, p: int, bp: int): Header
    requires p in mem && bp in mem && mem[p].ptr in mem
  {
    var next := mem[p].ptr;
    if mem[bp].typ == mem[next].typ && bp + mem[bp].size == next
    then mem[bp].(size := mem[bp].size + mem[next].size, ptr := mem[next].ptr)
    else mem[bp].(ptr := next)
  }

  /** Linked, but for the pointer of the node at `k`. */
  ghost predicate LinkedBut(mem: Mem, nodes: seq<Node>, k: nat) {
    && (forall i: nat :: i < |nodes| ==>
          nodes[i].addr in mem && mem[nodes[i].addr].size == nodes[i].size && mem[nodes[i].addr].typ == nodes[i].typ)
    && (forall i: nat :: i < |nodes| && i != k ==> mem[nodes[i].addr].ptr == nodes[NextIdx(|nodes|, i)].addr)
  }

  /** First the next node is taken over, if the blocks touch. */
  lemma {:induction false} JoinedIs(mem: Mem, nodes: seq<Node>, k: nat, b: Node)
    requires Ok(nodes) && Linked(mem, nodes) && Gap(nodes, k, b)
    requires b.addr in mem && mem[b.addr].size == b.size && mem[b.addr].typ == b.typ
    ensures nodes[k].addr in mem && mem[nodes[k].addr].ptr in mem && nodes[k].addr != b.addr
    ensures var n1, b1 := WithoutNext(nodes, k, b), JoinNext(nodes, k, b);
            Joined(mem, nodes[k].addr, b.addr) == Header(n1[NextIdx(|n1|, k)].addr, b1.size, b1.typ)
  {
    hide Ok;
    assert nodes[0].addr <= nodes[k].addr < b.addr by {
      if k > 0 {
        Ordered(nodes, 0, k);
      }
    }
  }

  lemma {:induction false} OtherAddrs(nodes: seq<Node>, k: nat, b: Node, i: nat)
    requires Ok(nodes) && Gap(nodes, k, b) && i < |nodes|
    ensures nodes[i].addr != b.addr && (i != k ==> nodes[i].addr != nodes[k].addr)
  {
    if i > k {
      GapAbove(nodes, b, k, i);
      Ordered(nodes, k, i);
    } else if i < k {
      Ordered(nodes, i, k);
    }
  }

  /** A header apart from all nodes changes. */
  lemma {:induction false} OtherHeader(mem: Mem, nodes: seq<Node>, k: nat, b: Node, h: Header)
    requires Ok(nodes) && Linked(mem, nodes) && Gap(nodes, k, b)
    ensures Linked(mem[b.addr := h], nodes)
  {
    hide Ok, Gap;
    forall i: nat | i < |nodes|
      ensures nodes[i].addr != b.addr
    {
      OtherAddrs(nodes, k, b, i);
    }
  }

  lemma {:induction false} NextSkipped(nodes: seq<Node>, k: nat, i: nat)
    requires k + 1 < |nodes| && i < |nodes| - 1
    ensures var n1 := nodes[..k + 1] + nodes[k + 2..];
            && n1[i] == nodes[if i <= k then i else i + 1]
            && (i != k ==> n1[NextIdx(|n1|, i)] == nodes[NextIdx(|nodes|, if i <= k then i else i + 1)])
  {
  }

  lemma {:induction false} SkipNext(mem: Mem, nodes: seq<Node>, k: nat)
    requires Linked(mem, nodes) && k + 1 < |nodes|
    ensures LinkedBut(mem, nodes[..k + 1] + nodes[k + 2..], k)
  {
    hide Linked, NextIdx;
    var n1 := nodes[..k + 1] + nodes[k + 2..];
    forall i: nat | i < |n1|
      ensures n1[i].addr in mem && mem[n1[i].addr].size == n1[i].size && mem[n1[i].addr].typ == n1[i].typ
      ensures i != k ==> mem[n1[i].addr].ptr == n1[NextIdx(|n1|, i)].addr
    {
      NextSkipped(nodes, k, i);
      LinkedAt(mem, nodes, if i <= k then i else i + 1);
    }
  }

  lemma {:induction false} JoinedLinks(mem: Mem, nodes: seq<Node>, k: nat, b: Node, h: Header)
    requires Ok(nodes) && Linked(mem, nodes) && Gap(nodes, k, b)
    ensures LinkedBut(mem[b.addr := h], WithoutNext(nodes, k, b), k)
  {
    hide Ok, Gap;
    OtherHeader(mem, nodes, k, b, h);
    if TouchesNext(nodes, k, b) {
      SkipNext(mem[b.addr := h], nodes, k);
    }
  }

  /** Then the block goes behind the node at `k`, or is joined with it. */
  lemma {:induction false} NextInserted(nodes: seq<Node>, k: nat, b: Node, i: nat)
    requires k < |nodes| && i <= |nodes|
    ensures var f := nodes[..k + 1] + [b] + nodes[k + 1..];
            && f[i] == (if i == k + 1 then b else nodes[if i <= k then i else i - 1])
            && f[NextIdx(|f|, i)] == (if i == k then b else nodes[NextIdx(|nodes|, if i <= k then i else i - 1)])
  {
  }

  lemma {:induction false} PutBehind(mem: Mem, nodes: seq<Node>, k: nat, b: Node)
    requires Ok(nodes) && LinkedBut(mem, nodes, k) && Gap(nodes, k, b) && !Touch(nodes[k], b)
    requires b.addr in mem && mem[b.addr] == Header(nodes[NextIdx(|nodes|, k)].addr, b.size, b.typ)
    ensures Linked(mem[nodes[k].addr := mem[nodes[k].addr].(ptr := b.addr)], Put(nodes, k, b))
  {
    hide Ok, NextIdx;
    var mem', f := mem[nodes[k].addr := mem[nodes[k].addr].(ptr := b.addr)], Put(nodes, k, b);
    OtherAddrs(nodes, k, b, k);
    forall i: nat | i < |f|
      ensures f[i].addr in mem' && mem'[f[i].addr] == Header(f[NextIdx(|f|, i)].addr, f[i].size, f[i].typ)
    {
      NextInserted(nodes, k, b, i);
      if i != k + 1 {
        OtherAddrs(nodes, k, b, if i <= k then i else i - 1);
      }
    }
  }

  lemma {:induction false} PutOnto(mem: Mem, nodes: seq<Node>, k: nat, b: Node)
    requires Ok(nodes) && LinkedBut(mem, nodes, k) && Gap(nodes, k, b) && Touch(nodes[k], b)
    ensures var h := Header(nodes[NextIdx(|nodes|, k)].addr, nodes[k].size + b.size, b.typ);
            Linked(mem[nodes[k].addr := h], Put(nodes, k, b))
  {
    hide Ok;
    var h := Header(nodes[NextIdx(|nodes|, k)].addr, nodes[k].size + b.size, b.typ);
    var mem', f := mem[nodes[k].addr := h], Put(nodes, k, b);
    forall i: nat | i < |f|
      ensures f[i].addr in mem' && mem'[f[i].addr] == Header(f[NextIdx(|f|, i)].addr, f[i].size, f[i].typ)
    {
      OtherAddrs(nodes, k, b, i);
      assert f[NextIdx(|f|, i)].addr == nodes[NextIdx(|f|, i)].addr;
    }
  }

  /** The writes of free_locked, for the block at `bp` behind the node at `p`. */
  function Relinked(mem: Mem, p: int, bp: int): (r: Mem)
    requires p in mem && bp in mem && mem[p].ptr in mem
  {
    var b := Joined(mem, p, bp);
    var h := mem[p];
    mem[bp := b][p := if h.typ == b.typ && p + h.size == bp then h.(size := h.size + b.size, ptr := b.ptr)
                 else h.(ptr := bp)]
  }

  /** They make the list that of the free blocks with the new one. */
  lemma {:induction false} RelinkedIs(mem: Mem, nodes: seq<Node>, k: nat, b: Node)
    requires Ok(nodes) && Linked(mem, nodes) && Gap(nodes, k, b)
    requires b.addr in mem && mem[b.addr].size == b.size && mem[b.addr].typ == b.typ
    ensures nodes[k].addr in mem && mem[nodes[k].addr].ptr in mem && nodes[k].addr != b.addr
    ensures Linked(Relinked(mem, nodes[k].addr, b.addr), Freed(nodes, k, b))
  {
    hide Ok, Gap, WithoutNext, JoinNext, Put, Joined;
    GapSize(nodes, k, b);
    var n1, b1 := WithoutNext(nodes, k, b), JoinNext(nodes, k, b);
    JoinOk(nodes, k, b);
    JoinedIs(mem, nodes, k, b);
    var h := Joined(mem, nodes[k].addr, b.addr);
    JoinedLinks(mem, nodes, k, b, h);
    SameNode(nodes, k, b);
    if Touch(n1[k], b1) {
      PutOnto(mem[b.addr := h], n1, k, b1);
    } else {
      PutBehind(mem[b.addr := h], n1, k, b1);
    }
  }

  lemma {:induction false} SameNode(nodes: seq<Node>, k: nat, b: Node)
    requires k < |nodes|
    ensures k < |WithoutNext(nodes, k, b)| && WithoutNext(nodes, k, b)[k] == nodes[k]
    ensures JoinNext(nodes, k, b).addr == b.addr && JoinNext(nodes, k, b).typ == b.typ
  {
    assert WithoutNext(nodes, k, b)[..k + 1][k] == nodes[..k + 1][k];
  }

  // ---------- what the blocks in use need ----------

  /** Joining free blocks leaves everything else apart from them. */
  lemma {:induction false} FreedApart(nodes: seq<Node>, k: nat, b: Node, c: Node)
    requires Ok(nodes) && Gap(nodes, k, b) && ApartFrom(nodes, c) && Apart(b, c) && c.size >= 1
    ensures ApartFrom(Freed(nodes, k, b), c)
  {
    hide Ok, Gap, Freed, FreeLists.Free;
    GapSize(nodes, k, b);
    var f := Freed(nodes, k, b);
    FreedOk(nodes, k, b);
    FreedAt(nodes, k, b);
    FirstIs(f);
    forall i: nat | i < |f|
      ensures Apart(f[i], c)
    {
      FreedUnitsApart(nodes, k, b, c, i);
    }
  }

  lemma {:induction false} FirstIs(nodes: seq<Node>)
    requires Ok(nodes)
    ensures nodes != [] && nodes[0].size == 0 && forall i :: 1 <= i < |nodes| ==> nodes[i].size >= 1
  {
  }

  /** A unit of both would be free, or of the block. */
  lemma {:induction false} FreedUnitsApart(nodes: seq<Node>, k: nat, b: Node, c: Node, i: nat)
    requires Ok(nodes) && Gap(nodes, k, b) && ApartFrom(nodes, c) && Apart(b, c) && c.size >= 1
    requires i < |Freed(nodes, k, b)| && Freed(nodes, k, b)[0].addr < c.addr
    ensures Apart(Freed(nodes, k, b)[i], c)
  {
    hide Ok, Gap, Freed;
    GapSize(nodes, k, b);
    var f := Freed(nodes, k, b);
    FreedOk(nodes, k, b);
    FirstIs(f);
    var x := if f[i].addr < c.addr then c.addr else f[i].addr;
    FreedUnits(nodes, k, b, x, f[i].typ);
    if f[i].Holds(x) && c.Holds(x) {
      assert FreeLists.Free(f, x, f[i].typ);
      NotFreeIn(nodes, c, x, f[i].typ);
    }
  }

  lemma {:induction false} NotFreeIn(nodes: seq<Node>, c: Node, x: int, typ: bool)
    requires ApartFrom(nodes, c) && c.Holds(x)
    ensures !FreeLists.Free(nodes, x, typ)
  {
    forall i | 0 <= i < |nodes|
      ensures !nodes[i].Holds(x)
    {
      assert Apart(nodes[i], c);
    }
  }

  /** An address of the list. */
  ghost predicate At(nodes: seq<Node>, i: nat, p: int) {
    i < |nodes| && nodes[i].addr == p
  }

  ghost predicate InList(nodes: seq<Node>, p: int) {
    exists i :: At(nodes, i, p)
  }

  /** Nothing of type 0 is above the break. */
  ghost predicate BelowBreak(nodes: seq<Node>, live: set<Node>, brk: int) {
    && (forall i :: 0 <= i < |nodes| && !nodes[i].typ ==> nodes[i].End() <= brk)
    && (forall b :: b in live && !b.typ ==> b.End() <= brk)
  }

  lemma {:induction false} LinkedAt(mem: Mem, nodes: seq<Node>, i: nat)
    requires Linked(mem, nodes) && i < |nodes|
    ensures nodes[i].addr in mem && mem[nodes[i].addr].ptr in mem
    ensures mem[nodes[i].addr] == Header(nodes[NextIdx(|nodes|, i)].addr, nodes[i].size, nodes[i].typ)
  {
  }

  // ---------- malloc_locked ----------

  /** A free block that will do. */
  predicate Fits(node: Node, nu: int, typ: bool) {
    node.typ == typ && node.size >= nu
  }

  ghost predicate NoFit(nodes: seq<Node>, nu: int, typ: bool) {
    forall i :: 0 <= i < |nodes| ==> !Fits(nodes[i], nu, typ)
  }

  /** Only the node at `t` will do. */
  ghost predicate OnlyFit(nodes: seq<Node>, t: nat, nu: int, typ: bool) {
    t < |nodes| && Fits(nodes[t], nu, typ) && forall i :: 0 <= i < |nodes| && i != t ==> !Fits(nodes[i], nu, typ)
  }

  /** `p` is the node in front of the one at `i`. */
  ghost predicate Precedes(nodes: seq<Node>, p: int, i: nat) {
    exists j: nat :: At(nodes, j, p) && NextIdx(|nodes|, j) == i
  }

  /** None of the nodes from `from` up to the one before `to` will do, or is `stop`. */
  ghost predicate Passed(nodes: seq<Node>, from: nat, to: nat, nu: int, typ: bool, stop: int) {
    forall j: nat :: j < |nodes| && Distance(|nodes|, from, j) < Distance(|nodes|, from, to) ==>
      !Fits(nodes[j], nu, typ) && nodes[j].addr != stop
  }

  /** The node at `i` is the first that will do behind the one at `i0`, which is `start`. */
  ghost predicate IsNextFit(nodes: seq<Node>, i0: nat, i: nat, start: int, nu: int, typ: bool, p: int) {
    && At(nodes, i0, start) && At(nodes, i, p) && Fits(nodes[i], nu, typ)
    && Passed(nodes, NextIdx(|nodes|, i0), i, nu, typ, start)
  }

  ghost predicate NextFit(nodes: seq<Node>, start: int, nu: int, typ: bool, p: int) {
    exists i0: nat, i: nat :: IsNextFit(nodes, i0, i, start, nu, typ, p)
  }

  /** Where the freed block is now. */
  function Home(nodes: seq<Node>, k: nat, b: Node): nat
    requires k < |nodes|
  {
    if Touch(nodes[k], b) then k else k + 1
  }

  /** When nothing did before, only the new block does. */
  lemma {:induction false} NewFits(nodes: seq<Node>, k: nat, b: Node, nu: int, typ: bool)
    requires Ok(nodes) && Gap(nodes, k, b) && b.typ == typ && b.size >= nu >= 1 && NoFit(nodes, nu, typ)
    ensures OnlyFit(Freed(nodes, k, b), Home(nodes, k, b), nu, typ)
  {
    hide Ok;
    JoinBig(nodes, k, b);
    var n1, b1, f := WithoutNext(nodes, k, b), JoinNext(nodes, k, b), Freed(nodes, k, b);
    SameNode(nodes, k, b);
    forall i | 0 <= i < |n1|
      ensures !Fits(n1[i], nu, typ)
    {
      if TouchesNext(nodes, k, b) {
        assert n1[i] == nodes[if i <= k then i else i + 1];
      }
    }
    assert Touch(n1[k], b1) <==> Touch(nodes[k], b);
    if !Touch(n1[k], b1) {
      assert f[k + 1] == b1 && forall i :: 0 <= i < |f| && i != k + 1 ==> f[i] == n1[if i <= k then i else i - 1];
    }
  }

  // ---------- the block that is found ----------

  /** The writes of malloc_locked for a block at `p`, with `prevp` in front of it. */
  function TakenMem(mem: Mem, prevp: int, p: int, nu: int): Mem
    requires prevp in mem && p in mem && prevp != p
  {
    if mem[p].size == nu then mem[prevp := mem[prevp].(ptr := mem[p].ptr)]
    else mem[prevp := mem[prevp].(ptr := p + nu)][p + nu := Header(mem[p].ptr, mem[p].size - nu, mem[p].typ)]
            [p := mem[p].(size := nu)]
  }

  lemma {:induction false} OtherNode(nodes: seq<Node>, i: nat, j: nat)
    requires Ok(nodes) && i < |nodes| && j < |nodes| && i != j
    ensures nodes[i].addr != nodes[j].addr && Apart(nodes[i], nodes[j])
  {
    if i < j {
      Ordered(nodes, i, j);
    } else {
      Ordered(nodes, j, i);
    }
  }

  lemma {:induction false} FixPointer(mem: Mem, nodes: seq<Node>, k: nat)
    requires Ok(nodes) && LinkedBut(mem, nodes, k) && k < |nodes|
    ensures Linked(mem[nodes[k].addr := mem[nodes[k].addr].(ptr := nodes[NextIdx(|nodes|, k)].addr)], nodes)
  {
    hide Ok;
    forall i: nat | i < |nodes| && i != k
      ensures nodes[i].addr != nodes[k].addr
    {
      OtherNode(nodes, i, k);
    }
  }

  /** Without the node at `t` its predecessor is linked to its successor. */
  lemma {:induction false} UnlinkedIs(mem: Mem, nodes: seq<Node>, t: nat)
    requires Ok(nodes) && Linked(mem, nodes) && 1 <= t < |nodes|
    ensures nodes[t].addr in mem && nodes[t - 1].addr in mem && nodes[t].addr != nodes[t - 1].addr
    ensures var h := mem[nodes[t - 1].addr].(ptr := mem[nodes[t].addr].ptr);
            Linked(mem[nodes[t - 1].addr := h], nodes[..t] + nodes[t + 1..])
  {
    hide Ok, Linked, LinkedBut, NextIdx;
    var n1 := nodes[..t] + nodes[t + 1..];
    OtherNode(nodes, t, t - 1);
    RemoveOk(nodes, t);
    SkipNext(mem, nodes, t - 1);
    assert nodes[..t - 1 + 1] + nodes[t - 1 + 2..] == n1;
    LinkedAt(mem, nodes, t);
    LinkedAt(mem, nodes, t - 1);
    SkippedIs(nodes, t);
    FixPointer(mem, n1, t - 1);
  }

  lemma {:induction false} SkippedIs(nodes: seq<Node>, t: nat)
    requires 1 <= t < |nodes|
    ensures var n1 := nodes[..t] + nodes[t + 1..];
            n1[t - 1] == nodes[t - 1] && n1[NextIdx(|n1|, t - 1)] == nodes[NextIdx(|nodes|, t)]
  {
  }

  lemma {:induction false} NextReplaced(nodes: seq<Node>, t: nat, b: Node, i: nat)
    requires 1 <= t < |nodes| && i < |nodes|
    ensures var f := nodes[t := b];
            f[NextIdx(|f|, i)] == if i == t - 1 then b else nodes[NextIdx(|nodes|, i)]
  {
  }

  /** The header that malloc_locked leaves at `x` when it splits a block. */
  lemma {:induction false} SplitMem(mem: Mem, prevp: int, p: int, nu: int, x: int)
    requires prevp in mem && p in mem && prevp != p && mem[p].size > nu && nu >= 1 && prevp != p + nu
    ensures var mem' := TakenMem(mem, prevp, p, nu);
            && (x == p + nu ==> x in mem' && mem'[x] == Header(mem[p].ptr, mem[p].size - nu, mem[p].typ))
            && (x == prevp ==> x in mem' && mem'[x] == mem[x].(ptr := p + nu))
            && (x != prevp && x != p && x != p + nu && x in mem ==> x in mem' && mem'[x] == mem[x])
  {
  }

  lemma {:induction false} SplitAt(mem: Mem, nodes: seq<Node>, t: nat, nu: int, i: nat)
    requires Ok(nodes) && Linked(mem, nodes) && 1 <= t < |nodes| && 1 <= nu < nodes[t].size && i < |nodes|
    ensures nodes[t].addr in mem && nodes[t - 1].addr in mem && nodes[t].addr != nodes[t - 1].addr
    ensures var mem', rest := TakenMem(mem, nodes[t - 1].addr, nodes[t].addr, nu),
                              Node(nodes[t].addr + nu, nodes[t].size - nu, nodes[t].typ);
            var node, next := if i == t then rest else nodes[i],
                              if i == t - 1 then rest else nodes[NextIdx(|nodes|, i)];
            node.addr in mem' && mem'[node.addr] == Header(next.addr, node.size, node.typ)
  {
    hide Ok, TakenMem, NextIdx, Linked;
    OtherNode(nodes, t, t - 1);
    LinkedAt(mem, nodes, t);
    LinkedAt(mem, nodes, t - 1);
    LinkedAt(mem, nodes, i);
    NotInside(nodes, t - 1, t, nodes[t].addr + nu);
    SplitMem(mem, nodes[t - 1].addr, nodes[t].addr, nu, if i == t then nodes[t].addr + nu else nodes[i].addr);
    if i != t {
      OtherNode(nodes, i, t);
      NotInside(nodes, i, t, nodes[t].addr + nu);
    }
    if i != t - 1 && i != t {
      OtherNode(nodes, i, t - 1);
    }
    if i == t - 1 {
      NextOf(|nodes|, i);
    }
  }

  lemma {:induction false} NextOf(n: nat, i: nat)
    requires i + 1 < n
    ensures NextIdx(n, i) == i + 1
  {
  }

  /** The rest of a node that is split stays at its place in the list. */
  lemma {:induction false} SplitIs(mem: Mem, nodes: seq<Node>, t: nat, nu: int)
    requires Ok(nodes) && Linked(mem, nodes) && 1 <= t < |nodes| && 1 <= nu < nodes[t].size
    ensures nodes[t].addr in mem && nodes[t - 1].addr in mem && nodes[t].addr != nodes[t - 1].addr
    ensures Linked(TakenMem(mem, nodes[t - 1].addr, nodes[t].addr, nu), Taken(nodes, t, nu))
  {
    hide Ok, TakenMem, NextIdx;
    SplitAt(mem, nodes, t, nu, t);
    var mem', f := TakenMem(mem, nodes[t - 1].addr, nodes[t].addr, nu), Taken(nodes, t, nu);
    forall i: nat | i < |f|
      ensures f[i].addr in mem' && mem'[f[i].addr] == Header(f[NextIdx(|f|, i)].addr, f[i].size, f[i].typ)
    {
      SplitAt(mem, nodes, t, nu, i);
      NextReplaced(nodes, t, f[t], i);
    }
  }

  lemma {:induction false} NotInside(nodes: seq<Node>, i: nat, t: nat, x: int)
    requires Ok(nodes) && i < |nodes| && t < |nodes| && i != t && nodes[t].addr < x < nodes[t].End()
    ensures nodes[i].addr != x
  {
    if i < t {
      Ordered(nodes, i, t);
    } else {
      Ordered(nodes, t, i);
    }
  }

  lemma {:induction false} TakenLinked(mem: Mem, nodes: seq<Node>, t: nat, nu: int)
    requires Ok(nodes) && Linked(mem, nodes) && 1 <= t < |nodes| && 1 <= nu <= nodes[t].size
    ensures nodes[t].addr in mem && nodes[t - 1].addr in mem && nodes[t].addr != nodes[t - 1].addr
    ensures Linked(TakenMem(mem, nodes[t - 1].addr, nodes[t].addr, nu), Taken(nodes, t, nu))
  {
    if nodes[t].size == nu {
      UnlinkedIs(mem, nodes, t);
    } else {
      SplitIs(mem, nodes, t, nu);
    }
  }

  /** What was apart from a node is apart from what is left of it. */
  lemma {:induction false} TakenApart(nodes: seq<Node>, t: nat, nu: int, c: Node)
    requires Ok(nodes) && 1 <= t < |nodes| && 1 <= nu <= nodes[t].size && ApartFrom(nodes, c)
    ensures ApartFrom(Taken(nodes, t, nu), c) && Apart(Node(nodes[t].addr, nu, nodes[t].typ), c)
  {
    var f := Taken(nodes, t, nu);
    assert f[0] == nodes[0];
    forall i | 0 <= i < |f|
      ensures Apart(f[i], c)
    {
      assert Apart(nodes[t], c);
      if nodes[t].size == nu {
        assert f[i] == nodes[if i < t then i else i + 1];
      }
    }
  }

  lemma {:induction false} TakenSelf(nodes: seq<Node>, t: nat, nu: int)
    requires Ok(nodes) && 1 <= t < |nodes| && 1 <= nu <= nodes[t].size
    ensures ApartFrom(Taken(nodes, t, nu), Node(nodes[t].addr, nu, nodes[t].typ))
  {
    var f, c := Taken(nodes, t, nu), Node(nodes[t].addr, nu, nodes[t].typ);
    Ordered(nodes, 0, t);
    assert f[0] == nodes[0];
    forall i | 0 <= i < |f|
      ensures Apart(f[i], c)
    {
      if nodes[t].size == nu {
        var j: nat := if i < t then i else i + 1;
        assert f[i] == nodes[j];
        OtherNode(nodes, j, t);
      } else if i != t {
        OtherNode(nodes, i, t);
      }
    }
  }

  /** The headers of blocks in use are not written. */
  lemma {:induction false} TakenHeader(mem: Mem, nodes: seq<Node>, t: nat, nu: int, c: Node)
    requires Ok(nodes) && 1 <= t < |nodes| && 1 <= nu <= nodes[t].size && ApartFrom(nodes, c) && c.size >= 1
    requires nodes[t].addr in mem && nodes[t - 1].addr in mem && nodes[t].addr != nodes[t - 1].addr && c.addr in mem
    requires mem[nodes[t].addr].size == nodes[t].size
    ensures c.addr in TakenMem(mem, nodes[t - 1].addr, nodes[t].addr, nu)
    ensures TakenMem(mem, nodes[t - 1].addr, nodes[t].addr, nu)[c.addr] == mem[c.addr]
  {
    LiveAddr(nodes, t - 1, c);
    LiveAddr(nodes, t, c);
    assert Apart(nodes[t], c);
  }

  lemma {:induction false} TakenOwn(mem: Mem, nodes: seq<Node>, t: nat, nu: int)
    requires 1 <= t < |nodes| && 1 <= nu <= nodes[t].size
    requires nodes[t].addr in mem && nodes[t - 1].addr in mem && nodes[t].addr != nodes[t - 1].addr
    requires mem[nodes[t].addr].size == nodes[t].size && mem[nodes[t].addr].typ == nodes[t].typ
    ensures var mem' := TakenMem(mem, nodes[t - 1].addr, nodes[t].addr, nu);
            nodes[t].addr in mem' && mem'[nodes[t].addr].size == nu && mem'[nodes[t].addr].typ == nodes[t].typ
  {
  }

  /** The block that is taken is in use like the others. */
  lemma {:induction false} TakenLive(mem: Mem, nodes: seq<Node>, live: set<Node>, t: nat, nu: int, brk: int)
    requires Ok(nodes) && Linked(mem, nodes) && LiveOk(mem, nodes, live) && BelowBreak(nodes, live, brk)
    requires 1 <= t < |nodes| && 1 <= nu <= nodes[t].size
    ensures nodes[t].addr in mem && nodes[t - 1].addr in mem && nodes[t].addr != nodes[t - 1].addr
    ensures var b := Node(nodes[t].addr, nu, nodes[t].typ);
            && b !in live
            && LiveOk(TakenMem(mem, nodes[t - 1].addr, nodes[t].addr, nu), Taken(nodes, t, nu), live + {b})
            && BelowBreak(Taken(nodes, t, nu), live + {b}, brk)
  {
    hide Ok, Linked, TakenMem, Taken, ApartFrom;
    LinkedAt(mem, nodes, t);
    LinkedAt(mem, nodes, t - 1);
    OtherNode(nodes, t, t - 1);
    TakenSelf(nodes, t, nu);
    TakenOwn(mem, nodes, t, nu);
    var b, mem' := Node(nodes[t].addr, nu, nodes[t].typ), TakenMem(mem, nodes[t - 1].addr, nodes[t].addr, nu);
    forall c | c in live
      ensures ApartFrom(Taken(nodes, t, nu), c) && Apart(b, c) && c.addr in mem' && mem'[c.addr] == mem[c.addr]
    {
      TakenApart(nodes, t, nu, c);
      TakenHeader(mem, nodes, t, nu, c);
    }
    TakenBelow(nodes, t, nu, brk);
  }

  lemma {:induction false} LiveAddr(nodes: seq<Node>, i: nat, c: Node)
    requires Ok(nodes) && i < |nodes| && ApartFrom(nodes, c) && c.size >= 1
    ensures nodes[i].addr != c.addr
  {
    assert Apart(nodes[i], c);
  }

  lemma {:induction false} TakenBelow(nodes: seq<Node>, t: nat, nu: int, brk: int)
    requires 1 <= t < |nodes| && 1 <= nu <= nodes[t].size
    requires forall i :: 0 <= i < |nodes| && !nodes[i].typ ==> nodes[i].End() <= brk
    ensures forall i :: 0 <= i < |Taken(nodes, t, nu)| && !Taken(nodes, t, nu)[i].typ ==>
        Taken(nodes, t, nu)[i].End() <= brk
  {
    var f := Taken(nodes, t, nu);
    forall i | 0 <= i < |f| && !f[i].typ
      ensures f[i].End() <= brk
    {
      if nodes[t].size == nu {
        assert f[i] == nodes[if i < t then i else i + 1];
      }
    }
  }

  // ---------- where the search goes on ----------

  /** The node at `i` is the one that the freed block takes over. */
  predicate Absorbed(nodes: seq<Node>, k: nat, b: Node, i: nat) {
    i == k + 1 && TouchesNext(nodes, k, b)
  }

  /** The index of the node at `i`, if it is still there. */
  function Moved(nodes: seq<Node>, k: nat, b: Node, i: nat): int
    requires k < |nodes|
  {
    if i <= k then i
    else i + (if TouchesNext(nodes, k, b) then 0 else 1) - (if Touch(nodes[k], b) then 1 else 0)
  }

  lemma {:induction false} MovedAt(nodes: seq<Node>, k: nat, b: Node, i: nat)
    requires k < |nodes| && i < |nodes| && !Absorbed(nodes, k, b, i)
    ensures var f, j := Freed(nodes, k, b), Moved(nodes, k, b, i);
            && 0 <= j < |f| && f[j].addr == nodes[i].addr && f[j].typ == nodes[i].typ
            && f[j].size == nodes[i].size + (if i == k && Touch(nodes[k], b) then JoinNext(nodes, k, b).size else 0)
  {
    var n1, b1, f := WithoutNext(nodes, k, b), JoinNext(nodes, k, b), Freed(nodes, k, b);
    SameNode(nodes, k, b);
    var m: nat := if i <= k || !TouchesNext(nodes, k, b) then i else i - 1;
    assert n1[m] == nodes[i];
    assert Touch(n1[k], b1) <==> Touch(nodes[k], b);
    if !Touch(nodes[k], b) {
      assert f[if m <= k then m else m + 1] == n1[m];
    }
  }

  lemma {:induction false} HomeAt(nodes: seq<Node>, k: nat, b: Node)
    requires k < |nodes|
    ensures var f, t := Freed(nodes, k, b), Home(nodes, k, b);
            && t < |f| && f[t].typ == b.typ
            && f[t].size == JoinNext(nodes, k, b).size + (if t == k then nodes[k].size else 0)
            && f[t].addr == if t == k then nodes[k].addr else b.addr
  {
    SameNode(nodes, k, b);
    var n1, b1, f := WithoutNext(nodes, k, b), JoinNext(nodes, k, b), Freed(nodes, k, b);
    assert Touch(n1[k], b1) <==> Touch(nodes[k], b);
    if !Touch(nodes[k], b) {
      assert f[k + 1] == b1;
    }
  }

  /** The successor of a node that has been taken over is that of the node that took it. */
  lemma {:induction false} AbsorbedNext(nodes: seq<Node>, k: nat, b: Node)
    requires k < |nodes| && TouchesNext(nodes, k, b)
    ensures var f, t := Freed(nodes, k, b), Home(nodes, k, b);
            t < |f| && f[NextIdx(|f|, t)].addr == nodes[NextIdx(|nodes|, k + 1)].addr
  {
    HomeAt(nodes, k, b);
    SameNode(nodes, k, b);
    if k + 2 < |nodes| {
      MovedAt(nodes, k, b, k + 2);
    } else {
      MovedAt(nodes, k, b, 0);
    }
    FreedSize(nodes, k, b);
  }

  lemma {:induction false} FreedSize(nodes: seq<Node>, k: nat, b: Node)
    requires k < |nodes|
    ensures var gone := (if TouchesNext(nodes, k, b) then 1 else 0) + (if Touch(nodes[k], b) then 1 else 0);
            |Freed(nodes, k, b)| == |nodes| + 1 - gone
  {
    SameNode(nodes, k, b);
  }

  /** The node to which the loop comes from the one at `i`, when a block has become free in between. */
  function Onward(nodes: seq<Node>, k: nat, b: Node, i: nat): (j: int)
    requires k < |nodes| && i < |nodes|
  {
    var n, m := |Freed(nodes, k, b)|, if Absorbed(nodes, k, b, i) then Home(nodes, k, b) else Moved(nodes, k, b, i);
    if m + 1 < n then m + 1 else 0
  }

  lemma {:induction false} OnwardIs(mem: Mem, nodes: seq<Node>, k: nat, b: Node, i: nat)
    requires Ok(nodes) && Linked(mem, nodes) && Gap(nodes, k, b) && i < |nodes|
    requires b.addr in mem && nodes[k].addr in mem && mem[nodes[k].addr].ptr in mem
    requires Linked(Relinked(mem, nodes[k].addr, b.addr), Freed(nodes, k, b))
    ensures var mem', f, j := Relinked(mem, nodes[k].addr, b.addr), Freed(nodes, k, b), Onward(nodes, k, b, i);
            0 <= j < |f| && nodes[i].addr in mem' && mem'[nodes[i].addr].ptr == f[j].addr
  {
    hide Ok, Gap, Freed, Home, Moved;
    GapSize(nodes, k, b);
    if Absorbed(nodes, k, b, i) {
      AbsorbedNext(nodes, k, b);
      HomeAt(nodes, k, b);
      OtherAddrs(nodes, k, b, i);
      LinkedAt(mem, nodes, i);
    } else {
      MovedAt(nodes, k, b, i);
      var j: nat := Moved(nodes, k, b, i);
      LinkedAt(Relinked(mem, nodes[k].addr, b.addr), Freed(nodes, k, b), j);
    }
  }

  /**
   The region that the kernel gives when it is asked for `nu` units: apart from everything, and for type 0 at the break.
   */
  ghost predicate Grant(nodes: seq<Node>, live: set<Node>, brk: int, nu: int, typ: bool, r: Region) {
    r.Got? ==>
      var b := Node(r.addr, r.size, typ);
      r.size >= nu && ApartFrom(nodes, b) && (forall c :: c in live ==> Apart(b, c)) && (typ || r.addr == brk)
  }

  /** After the first region the loop comes to the new block itself only from the node in front of it. */
  lemma {:induction false} FirstRound(nodes: seq<Node>, k: nat, b: Node, i0: nat, nu: int, typ: bool)
    requires Ok(nodes) && Gap(nodes, k, b) && i0 < |nodes| && b.typ == typ && b.size >= nu >= 1 && NoFit(nodes, nu, typ)
    ensures var f, t, i := Freed(nodes, k, b), Home(nodes, k, b), Onward(nodes, k, b, i0);
            && OnlyFit(f, t, nu, typ) && 0 <= i < |f|
            && (i == t ==> Precedes(f, nodes[i0].addr, t))
            && (t == k + 1 ==> (i == t <==> i0 == k))
  {
    hide Ok, Freed, OnlyFit;
    NewFits(nodes, k, b, nu, typ);
    HomeAt(nodes, k, b);
    FreedSize(nodes, k, b);
    NotAtBase(nodes, k, b);
    if !Absorbed(nodes, k, b, i0) {
      MovedAt(nodes, k, b, i0);
      assert At(Freed(nodes, k, b), Moved(nodes, k, b, i0), nodes[i0].addr);
    }
  }

  lemma {:induction false} NotAtBase(nodes: seq<Node>, k: nat, b: Node)
    requires Ok(nodes) && Gap(nodes, k, b)
    ensures k < |nodes| && Home(nodes, k, b) >= 1
  {
  }

  /** The end of the walk after that: at the new block, or in front of it. */
  lemma {:induction false} FirstWalk(f: seq<Node>, t: nat, k: nat, i0: nat, i: nat, nu: int, typ: bool, stop: int)
    requires Ok(f) && OnlyFit(f, t, nu, typ) && t in {k, k + 1} && k < |f| && i0 < |f| && i < |f| && f[k].addr == stop
    requires Fits(f[i], nu, typ) || f[i].addr == stop
    requires Passed(f, i0, i, nu, typ, stop)
    ensures Fits(f[i], nu, typ) ==> i == t && (t == k + 1 ==> i0 == t)
    ensures !Fits(f[i], nu, typ) ==> i == k && t == k + 1 && i0 != t
  {
    hide Ok;
    if i != k {
      OtherNode(f, i, k);
    }
    Nearer(|f|, i0, k, t, i);
  }

  /** On the way around to `t` its predecessor comes first. */
  lemma {:induction false} Nearer(n: nat, i0: nat, k: nat, t: nat, i: nat)
    requires i0 < n && k < n && t < n && i < n
    ensures t == k + 1 && i0 != t ==> Distance(n, i0, k) < Distance(n, i0, t)
    ensures i != i0 ==> Distance(n, i0, i0) < Distance(n, i0, i)
  {
  }

  lemma {:induction false} JoinBig(nodes: seq<Node>, k: nat, b: Node)
    requires Ok(nodes) && k < |nodes|
    ensures JoinNext(nodes, k, b).size >= b.size && nodes[k].size >= 0
  {
  }

  /** After the second region the next node will do, or the one where the walk ends. */
  lemma {:induction false} SecondRound(nodes: seq<Node>, k: nat, k2: nat, b: Node, nu: int, typ: bool)
    requires Ok(nodes) && Gap(nodes, k2, b) && OnlyFit(nodes, k + 1, nu, typ) && b.typ == typ && b.size >= nu >= 1
    ensures var f, i := Freed(nodes, k2, b), Onward(nodes, k2, b, k);
            && 0 <= i < |f|
            && (Absorbed(nodes, k2, b, k) ==> Fits(f[i], nu, typ) && f[i].addr == nodes[k + 1].addr && i >= 1)
            && (!Absorbed(nodes, k2, b, k) ==>
                  Precedes(f, nodes[k].addr, i) && (Fits(f[i], nu, typ) || Fits(f[k2], nu, typ)))
  {
    hide Ok, Freed;
    GapSize(nodes, k2, b);
    FreedSize(nodes, k2, b);
    HomeAt(nodes, k2, b);
    JoinBig(nodes, k2, b);
    NotAtBase(nodes, k2, b);
    if Absorbed(nodes, k2, b, k) {
      MovedAt(nodes, k2, b, k + 1);
    } else {
      MovedAt(nodes, k2, b, k);
      assert At(Freed(nodes, k2, b), Moved(nodes, k2, b, k), nodes[k].addr);
      if !Absorbed(nodes, k2, b, k + 1) {
        MovedAt(nodes, k2, b, k + 1);
      }
    }
  }

  /** A region touches a node from below just when that is taken over. */
  lemma {:induction false} TouchAbsorbs(nodes: seq<Node>, k2: nat, b: Node, k: nat)
    requires Ok(nodes) && Gap(nodes, k2, b) && k < |nodes|
    ensures Absorbed(nodes, k2, b, k) <==> Touch(b, nodes[k])
  {
    if k < k2 {
      Ordered(nodes, k, k2);
    } else if k > k2 + 1 {
      Ordered(nodes, k2 + 1, k);
    }
  }

  /** A whole round without success. */
  lemma {:induction false} NonePassed(nodes: seq<Node>, f0: nat, i: nat, nu: int, typ: bool, stop: int)
    requires Ok(nodes) && At(nodes, f0, stop) && i < |nodes| && !Fits(nodes[i], nu, typ) && nodes[i].addr == stop
    requires Passed(nodes, NextIdx(|nodes|, f0), i, nu, typ, stop)
    ensures NoFit(nodes, nu, typ) && i == f0
  {
    if i != f0 {
      OtherNode(nodes, i, f0);
    }
    hide Ok;
    var from := NextIdx(|nodes|, f0);
    forall j: nat | j < |nodes| && j != f0
      ensures !Fits(nodes[j], nu, typ)
    {
      assert Distance(|nodes|, from, j) < Distance(|nodes|, from, f0);
    }
  }

  /** Writes to what is not in the list: the block that is handed out stays in it. */
  lemma {:induction false} StaleIs(mem: Mem, nodes: seq<Node>, t: nat, prevp: int, nu: int)
    requires Ok(nodes) && Linked(mem, nodes) && 1 <= t < |nodes| && 1 <= nu <= nodes[t].size && prevp in mem
    requires forall i :: 0 <= i < |nodes| ==> nodes[i].addr != prevp
    ensures nodes[t].addr in mem && prevp != nodes[t].addr
    ensures Linked(TakenMem(mem, prevp, nodes[t].addr, nu), nodes[t := Node(nodes[t].addr, nu, nodes[t].typ)])
  {
    hide Ok, Apart;
    var f := nodes[t := Node(nodes[t].addr, nu, nodes[t].typ)];
    forall i: nat | i < |nodes| && i != t
      ensures nodes[i].addr != nodes[t].addr && (nu < nodes[t].size ==> nodes[i].addr != nodes[t].addr + nu)
    {
      OtherNode(nodes, i, t);
      if nu < nodes[t].size {
        NotInside(nodes, i, t, nodes[t].addr + nu);
      }
    }
    assert forall i :: 0 <= i < |f| ==> f[i].addr == nodes[i].addr;
  }

  lemma {:induction false} SecondWalk(f: seq<Node>, k: nat, i0: nat, i: nat, nu: int, typ: bool, stop: int)
    requires Ok(f) && At(f, k, stop) && i0 < |f| && i < |f| && (Fits(f[i0], nu, typ) || Fits(f[k], nu, typ))
    requires Fits(f[i], nu, typ) || f[i].addr == stop
    requires Passed(f, i0, i, nu, typ, stop)
    ensures Fits(f[i], nu, typ)
    ensures Fits(f[i0], nu, typ) ==> i == i0
  {
    hide Ok;
    if i != k {
      OtherNode(f, i, k);
    }
    Nearer(|f|, i0, k, k, i);
  }

  lemma {:induction false} AbsorbedGone(nodes: seq<Node>, k: nat, b: Node)
    requires Ok(nodes) && Gap(nodes, k, b) && TouchesNext(nodes, k, b)
    ensures forall i :: 0 <= i < |Freed(nodes, k, b)| ==> Freed(nodes, k, b)[i].addr != nodes[k + 1].addr
  {
    var f, x := Freed(nodes, k, b), nodes[k + 1].addr;
    HomeAt(nodes, k, b);
    FreedOk(nodes, k, b);
    Ordered(nodes, k, k + 1);
    hide Freed;
    var t := Home(nodes, k, b);
    assert nodes[k + 1].size >= 1 && f[t].addr < x < f[t].End();
    forall i: nat | i < |f| && i != t
      ensures f[i].addr != x
    {
      NotInside(f, i, t, x);
    }
  }

  lemma {:induction false} GoneAt(nodes: seq<Node>, k2: nat, g: Node, k: nat, p: int)
    requires Ok(nodes) && Gap(nodes, k2, g) && Absorbed(nodes, k2, g, k) && At(nodes, k, p)
    ensures forall i :: 0 <= i < |Freed(nodes, k2, g)| ==> Freed(nodes, k2, g)[i].addr != p
  {
    AbsorbedGone(nodes, k2, g);
  }

  lemma {:induction false} PrevOther(mem: Mem, nodes: seq<Node>, prevp: int, i: nat)
    requires Ok(nodes) && Linked(mem, nodes) && 1 <= i < |nodes| && Precedes(nodes, prevp, i)
    ensures prevp in mem && prevp != nodes[i].addr
  {
    OtherNode(nodes, i - 1, i);
  }

  lemma {:induction false} FitNotFirst(nodes: seq<Node>, i: nat, nu: int, typ: bool)
    requires Ok(nodes) && i < |nodes| && Fits(nodes[i], nu, typ) && nu >= 1
    ensures i >= 1
  {
  }

  function BlockOf(r: Region, typ: bool): Node
    requires r.Got?
  {
    Node(r.addr, r.size, typ)
  }

  /**
   When malloc_locked hands out a block and keeps it in the list: no free block will do; the first region does not
   touch the free block `nodes[k]` in front of it, which is not freep; and the second region ends where that block
   begins.
   */
  ghost predicate Overlaps(nodes: seq<Node>, freep: int, nu: int, typ: bool, r1: Region, r2: Region) {
    && NoFit(nodes, nu, typ) && r1.Got? && r2.Got?
    && exists k :: OverlapsAt(nodes, freep, typ, r1, r2, k)
  }

  ghost predicate OverlapsAt(nodes: seq<Node>, freep: int, typ: bool, r1: Region, r2: Region, k: nat)
    requires r1.Got? && r2.Got?
  {
    AsksAt(nodes, freep, typ, r1, k) && Touch(BlockOf(r2, typ), nodes[k])
  }

  /** The loop goes past the first region: it does not touch the free block in front of it, and that is not freep. */
  ghost predicate AsksTwice(nodes: seq<Node>, freep: int, typ: bool, r1: Region) {
    r1.Got? && exists k :: AsksAt(nodes, freep, typ, r1, k)
  }

  ghost predicate AsksAt(nodes: seq<Node>, freep: int, typ: bool, r1: Region, k: nat)
    requires r1.Got?
  {
    Gap(nodes, k, BlockOf(r1, typ)) && !Touch(nodes[k], BlockOf(r1, typ)) && nodes[k].addr != freep
  }

  /** When malloc_locked returns NULL. */
  ghost predicate Fails(nodes: seq<Node>, freep: int, nu: int, typ: bool, r1: Region, r2: Region) {
    NoFit(nodes, nu, typ) && (r1 == Refused || (AsksTwice(nodes, freep, typ, r1) && r2 == Refused))
  }

  /** How many regions come from the kernel. */
  ghost function Regions(nodes: seq<Node>, freep: int, nu: int, typ: bool, r1: Region, r2: Region): (n: nat)
    ensures n <= 2 && (n >= 1 ==> r1.Got?) && (n == 2 ==> r2.Got?)
  {
    if !NoFit(nodes, nu, typ) || r1 == Refused then 0
    else if !AsksTwice(nodes, freep, typ, r1) || r2 == Refused then 1 else 2
  }

  lemma {:induction false} AsksIs(nodes: seq<Node>, freep: int, typ: bool, r1: Region, k: nat)
    requires Ok(nodes) && r1.Got? && Gap(nodes, k, BlockOf(r1, typ))
    ensures AsksTwice(nodes, freep, typ, r1) <==> AsksAt(nodes, freep, typ, r1, k)
  {
    if AsksTwice(nodes, freep, typ, r1) {
      var j :| AsksAt(nodes, freep, typ, r1, j);
      GapUnique(nodes, BlockOf(r1, typ), j, k);
    }
  }

  /** Where the first region goes there is no other place. */
  lemma {:induction false} OverlapsIs(nodes: seq<Node>, freep: int, nu: int, typ: bool, r1: Region, r2: Region, k: nat)
    requires Ok(nodes) && NoFit(nodes, nu, typ) && r1.Got? && r2.Got? && Gap(nodes, k, BlockOf(r1, typ))
    ensures Overlaps(nodes, freep, nu, typ, r1, r2) <==> OverlapsAt(nodes, freep, typ, r1, r2, k)
  {
    if Overlaps(nodes, freep, nu, typ, r1, r2) {
      var j :| OverlapsAt(nodes, freep, typ, r1, r2, j);
      GapUnique(nodes, BlockOf(r1, typ), j, k);
    }
  }

  /** The two regions that the kernel gives, the second one behind the break of the first for type 0. */
  ghost predicate Grants(nodes: seq<Node>, live: set<Node>, brk: int, nu: int, typ: bool, r1: Region, r2: Region) {
    && Grant(nodes, live, brk, nu, typ, r1)
    && (r1.Got? ==> Grant(nodes, live, if typ then brk else r1.addr + r1.size, nu, typ, r2))
    && (r1.Got? && r2.Got? ==> Apart(BlockOf(r1, typ), BlockOf(r2, typ)))
  }

  /** The second region is apart from what the first one has become. */
  lemma {:induction false} GrantNext(nodes: seq<Node>, live: set<Node>, brk: int, nu: int, typ: bool, r1: Region,
                                     r2: Region, k: nat)
    requires Ok(nodes) && r1.Got? && Grants(nodes, live, brk, nu, typ, r1, r2) && nu >= 1
    requires Gap(nodes, k, BlockOf(r1, typ))
    ensures Grant(Freed(nodes, k, BlockOf(r1, typ)), live, if typ then brk else r1.addr + r1.size, nu, typ, r2)
  {
    if r2.Got? {
      FreedApart(nodes, k, BlockOf(r1, typ), BlockOf(r2, typ));
    }
  }

  lemma {:induction false} GrantsFirst(nodes: seq<Node>, live: set<Node>, brk: int, nu: int, typ: bool, r1: Region,
                                       r2: Region)
    requires Grants(nodes, live, brk, nu, typ, r1, r2)
    ensures Grant(nodes, live, brk, nu, typ, r1)
  {
  }

  /** What is free now, with the block, is what was free, with the first `asked` regions; and the block is not free. */
  ghost predicate Conserved(nodes: seq<Node>, nodes': seq<Node>, b: Node, r1: Region, r2: Region, asked: nat)
    requires (asked >= 1 ==> r1.Got?) && (asked == 2 ==> r2.Got?)
  {
    && (forall x, t :: Free(nodes', x, t) || (b.Holds(x) && b.typ == t) <==>
          || Free(nodes, x, t)
          || (asked >= 1 && BlockOf(r1, b.typ).Holds(x) && b.typ == t)
          || (asked == 2 && BlockOf(r2, b.typ).Holds(x) && b.typ == t))
    && (forall x, t :: b.Holds(x) ==> !Free(nodes', x, t))
  }

  /** The walk ends at the first region: then there is no overlap. */
  lemma {:induction false} NoOverlap(nodes: seq<Node>, p0: int, nu: int, typ: bool, r1: Region, r2: Region, k: nat,
                                     i0: nat, i1: nat)
    requires Ok(nodes) && r1.Got? && Gap(nodes, k, BlockOf(r1, typ)) && NoFit(nodes, nu, typ) && At(nodes, i0, p0)
    requires Home(nodes, k, BlockOf(r1, typ)) == k + 1 ==> i0 == k
    ensures !Overlaps(nodes, p0, nu, typ, r1, r2) && !AsksTwice(nodes, p0, typ, r1)
  {
    AsksIs(nodes, p0, typ, r1, k);
    if r2.Got? {
      OverlapsIs(nodes, p0, nu, typ, r1, r2, k);
    }
  }

  /** The walk ends in front of it: then that node is as before, and the second region decides. */
  lemma {:induction false} FrontIs(nodes: seq<Node>, p0: int, nu: int, typ: bool, r1: Region, r2: Region, k: nat,
                                   i0: nat)
    requires Ok(nodes) && r1.Got? && Gap(nodes, k, BlockOf(r1, typ)) && NoFit(nodes, nu, typ) && At(nodes, i0, p0)
    requires Home(nodes, k, BlockOf(r1, typ)) == k + 1 && i0 != k
    ensures k < |Freed(nodes, k, BlockOf(r1, typ))| && Freed(nodes, k, BlockOf(r1, typ))[k] == nodes[k]
    ensures r2.Got? ==> (Overlaps(nodes, p0, nu, typ, r1, r2) <==> Touch(BlockOf(r2, typ), nodes[k]))
    ensures AsksTwice(nodes, p0, typ, r1)
  {
    OtherNode(nodes, i0, k);
    AsksIs(nodes, p0, typ, r1, k);
    MovedAt(nodes, k, BlockOf(r1, typ), k);
    if r2.Got? {
      OverlapsIs(nodes, p0, nu, typ, r1, r2, k);
    }
  }

  /** Where the search begins. */
  function Start(freep: Option<int>, base: int): int {
    if freep == None then base else freep.value
  }

  lemma {:induction false} SomeFit(nodes: seq<Node>, i: nat, freep: int, nu: int, typ: bool, r1: Region, r2: Region)
    requires i < |nodes| && Fits(nodes[i], nu, typ)
    ensures !Overlaps(nodes, freep, nu, typ, r1, r2) && !NoFit(nodes, nu, typ)
  {
  }

  lemma {:induction false} InBlock(nodes: seq<Node>, i: nat, b: Node, x: int)
    requires Ok(nodes) && i < |nodes| && ApartFrom(nodes, b) && b.addr < x < b.End()
    ensures nodes[i].addr != x
  {
    assert Apart(nodes[i], b);
    if i > 0 {
      assert nodes[i].size >= 1;
    }
  }

  lemma {:induction false} Written(mem: Mem, nodes: seq<Node>, live: set<Node>, b: Node, x: int, h: Header)
    requires Ok(nodes) && LiveOk(mem, nodes, live) && b in live && b.addr < x < b.End()
    ensures Linked(mem, nodes) ==> Linked(mem[x := h], nodes)
    ensures LiveOk(mem[x := h], nodes, live)
  {
    hide Ok;
    forall i: nat | i < |nodes|
      ensures nodes[i].addr != x
    {
      InBlock(nodes, i, b, x);
    }
    assert forall c :: c in live && c != b ==> Apart(b, c);
  }

  /** What sys_brk gives is above everything of type 0, so malloc never overlaps. */
  lemma {:induction false} BrkSafe(nodes: seq<Node>, live: set<Node>, brk: int, freep: int, nu: int, typ: bool,
                                   r1: Region, r2: Region)
    requires Ok(nodes) && BelowBreak(nodes, live, brk) && Grants(nodes, live, brk, nu, typ, r1, r2) && nu >= 1
    ensures !typ ==> !Overlaps(nodes, freep, nu, typ, r1, r2)
  {
    if !typ && r1.Got? && r2.Got? {
      forall k: nat | k < |nodes|
        ensures !Touch(BlockOf(r2, typ), nodes[k])
      {
        assert !nodes[k].typ ==> nodes[k].End() <= brk;
      }
    }
  }

  /** A heap with a shared free block of one unit at 128, and one of 63 units in use behind it. */
  ghost predicate Example(mem: Mem, nodes: seq<Node>, live: set<Node>) {
    && nodes == [Node(0, 0, false), Node(128, 1, true)] && Node(129, 63, true) in live
    && (forall c :: c in live ==> c == Node(129, 63, true))
    && 0 in mem && mem[0] == Header(128, 0, false)
    && 128 in mem && mem[128] == Header(0, 1, true)
    && 129 in mem && mem[129] == Header(0, 63, true)
  }

  lemma {:induction false} ExampleOk(mem: Mem, nodes: seq<Node>, live: set<Node>)
    requires Example(mem, nodes, live)
    ensures Ok(nodes) && InList(nodes, 0)
  {
    assert At(nodes, 0, 0);
  }

  lemma {:induction false} ExampleLinked(mem: Mem, nodes: seq<Node>, live: set<Node>)
    requires Example(mem, nodes, live)
    ensures Linked(mem, nodes)
  {
    assert NextIdx(2, 0) == 1 && NextIdx(2, 1) == 0;
    hide NextIdx;
    forall i: nat | i < |nodes|
      ensures nodes[i].addr in mem
      ensures mem[nodes[i].addr] == Header(nodes[NextIdx(|nodes|, i)].addr, nodes[i].size, nodes[i].typ)
    {
      assert i == 0 || i == 1;
    }
  }

  lemma {:induction false} ExampleLive(mem: Mem, nodes: seq<Node>, live: set<Node>)
    requires Example(mem, nodes, live)
    ensures LiveOk(mem, nodes, live) && BelowBreak(nodes, live, 32)
  {
    assert Apart(nodes[0], Node(129, 63, true)) && Apart(nodes[1], Node(129, 63, true));
  }

  lemma {:induction false} ExampleApart(b: Node)
    requires b.addr > 0 && (b.addr >= 192 || b.End() <= 128)
    ensures ApartFrom([Node(0, 0, false), Node(128, 1, true)], b) && Apart(b, Node(129, 63, true))
  {
  }

  lemma {:induction false} ExampleGrants(mem: Mem, nodes: seq<Node>, live: set<Node>)
    requires Example(mem, nodes, live)
    ensures Grants(nodes, live, 32, 5, true, Got(320, 64), Got(64, 64))
  {
    hide ApartFrom;
    ExampleApart(Node(320, 64, true));
    ExampleApart(Node(64, 64, true));
  }

  lemma {:induction false} ExampleOverlaps(mem: Mem, nodes: seq<Node>, live: set<Node>)
    requires Example(mem, nodes, live)
    ensures Overlaps(nodes, 0, 5, true, Got(320, 64), Got(64, 64))
  {
    assert OverlapsAt(nodes, 0, true, Got(320, 64), Got(64, 64), 1);
  }

  /**
   It is sound, with freep at the base; but shmem_malloc overlaps for 5 units, when the kernel gives the page of 64
   units at 320 and then the one at 64.
   */
  lemma {:induction false} OverlapHappens(mem: Mem, nodes: seq<Node>, live: set<Node>)
    requires Example(mem, nodes, live)
    ensures Ok(nodes) && Linked(mem, nodes) && InList(nodes, 0)
    ensures LiveOk(mem, nodes, live) && BelowBreak(nodes, live, 32)
    ensures Grants(nodes, live, 32, 5, true, Got(320, 64), Got(64, 64))
    ensures Overlaps(nodes, 0, 5, true, Got(320, 64), Got(64, 64))
  {
    hide *;
    ExampleOk(mem, nodes, live);
    ExampleLinked(mem, nodes, live);
    ExampleLive(mem, nodes, live);
    ExampleGrants(mem, nodes, live);
    ExampleOverlaps(mem, nodes, live);
  }

  /** The units for `size` bytes, header included, in 32-bit arithmetic. */
  function Units(size: nat): (nu: int)
    requires size < TWO_32
    ensures nu >= 1
  {
    (size + 63) % TWO_32 / 64 + 1
  }

  /** They are enough unless the sum wraps around, and never one too many. */
  lemma {:induction false} UnitsEnough(size: nat)
    requires size < TWO_32
    ensures (Units(size) - 1) * 64 >= size <==> size <= TWO_32 - 64
    ensures (Units(size) - 1) * 64 < size + 64
  {
  }

  lemma {:induction false} PassedNone(nodes: seq<Node>, i: nat, nu: int, typ: bool, stop: int)
    requires i < |nodes|
    ensures Passed(nodes, i, i, nu, typ, stop)
  {
  }

  lemma {:induction false} WalkOn(nodes: seq<Node>, i0: nat, i: nat, f: nat, nu: int, typ: bool, stop: int, prevp: int)
    requires i0 < |nodes| && At(nodes, f, stop) && At(nodes, i, prevp) && prevp != stop && !Fits(nodes[i], nu, typ)
    requires Passed(nodes, i0, i, nu, typ, stop)
    ensures var j := NextIdx(|nodes|, i);
            && Passed(nodes, i0, j, nu, typ, stop) && Precedes(nodes, prevp, j)
            && 0 <= Distance(|nodes|, j, f) < Distance(|nodes|, i, f) && (|nodes| > 1 ==> j != i)
  {
  }

  class Heap {
    const base: int
    var mem: Mem
    var freep: Option<int>
    var brk: int
    ghost var nodes: seq<Node>
    ghost var live: set<Node>

    /** The list is linked in memory, and freep is one of its nodes. */
    ghost predicate Ring()
      reads this
    {
      Ok(nodes) && nodes[0].addr == base && Linked(mem, nodes) && freep.Some? && InList(nodes, freep.value)
    }

    ghost predicate Valid()
      reads this
    {
      && (Ring() || (freep == None && live == {} && nodes == [Node(base, 0, false)]))
      && LiveOk(mem, nodes, live) && BelowBreak(nodes, live, brk)
    }

    constructor (base: int, brk: int)
      requires base < brk
      ensures Valid() && live == {} && nodes == [Node(base, 0, false)] && this.base == base
    {
      this.base, this.brk := base, brk;
      mem, freep, nodes, live := map[], None, [Node(base, 0, false)], {};
    }

    /** The search of free_locked, from freep on around the list. */
    method FindPlace(bp: int, ghost b: Node, ghost k: nat) returns (p: int)
      requires Ring() && b.addr == bp && Gap(nodes, k, b)
      ensures At(nodes, k, p)
    {
      hide Ok, Gap, Linked;
      GapSize(nodes, k, b);
      p := freep.value;
      ghost var i: nat :| At(nodes, i, p);
      SearchEnds(nodes, b, k, i);
      LinkedAt(mem, nodes, i);
      while !(bp > p && bp < mem[p].ptr)
        invariant At(nodes, i, p) && p in mem && mem[p].ptr in mem
        invariant mem[p].ptr == nodes[NextIdx(|nodes|, i)].addr
        invariant (bp > p && bp < mem[p].ptr) || (p >= mem[p].ptr && (bp > p || bp < mem[p].ptr)) <==> i == k
        invariant k < |nodes|
        decreases Distance(|nodes|, i, k)
      {
        if p >= mem[p].ptr && (bp > p || bp < mem[p].ptr) {
          break;
        }
        p := mem[p].ptr;
        i := NextIdx(|nodes|, i);
        SearchEnds(nodes, b, k, i);
        LinkedAt(mem, nodes, i);
      }
    }

    /** free_locked for the block at `bp`, which has its size and type in the header. */
    method Insert(bp: int, ghost b: Node) returns (ghost k: nat)
      requires Ring() && b.addr == bp && b.size >= 1 && ApartFrom(nodes, b)
      requires bp in mem && mem[bp].size == b.size && mem[bp].typ == b.typ
      modifies this`mem, this`freep, this`nodes
      ensures Ring()
      ensures Gap(old(nodes), k, b) && nodes == Freed(old(nodes), k, b)
      ensures freep.Some? && At(old(nodes), k, freep.value)
      ensures freep.value in old(mem) && old(mem)[freep.value].ptr in old(mem)
      ensures mem == Relinked(old(mem), freep.value, bp)
    {
      hide Ok, Gap, Linked, Freed, Relinked, ApartFrom;
      k := GapOf(nodes, b);
      var p := FindPlace(bp, b, k);
      RelinkedIs(mem, nodes, k, b);
      FreedOk(nodes, k, b);
      FreedAt(nodes, k, b);
      OkFirst(nodes);
      Relink(p, bp);
      nodes := Freed(nodes, k, b);
      freep := Some(p);
    }

    /** The writes of free_locked. */
    method Relink(p: int, bp: int)
      requires p in mem && bp in mem && mem[p].ptr in mem && p != bp
      modifies this`mem
      ensures mem == Relinked(old(mem), p, bp)
    {
      var next := mem[p].ptr;
      if mem[bp].typ == mem[next].typ && bp + mem[bp].size == next {
        mem := mem[bp := mem[bp].(size := mem[bp].size + mem[next].size, ptr := mem[next].ptr)];
      } else {
        mem := mem[bp := mem[bp].(ptr := next)];
      }
      if mem[p].typ == mem[bp].typ && p + mem[p].size == bp {
        mem := mem[p := mem[p].(size := mem[p].size + mem[bp].size, ptr := mem[bp].ptr)];
      } else {
        mem := mem[p := mem[p].(ptr := bp)];
      }
    }

    /** The loop of malloc_locked, up to a block that will do or to freep. */
    method Walk(prevp0: int, p0: int, nu: int, typ: bool, ghost i0: nat) returns (prevp: int, p: int, ghost i: nat)
      requires Ring() && At(nodes, i0, p0)
      ensures At(nodes, i, p) && (Fits(nodes[i], nu, typ) || p == freep.value)
      ensures Passed(nodes, i0, i, nu, typ, freep.value)
      ensures if i == i0 then prevp == prevp0 else Precedes(nodes, prevp, i)
      ensures p in mem && mem[p].typ == nodes[i].typ && mem[p].size == nodes[i].size
    {
      hide Ok, Linked, Passed, Precedes;
      prevp, p, i := prevp0, p0, i0;
      PassedNone(nodes, i0, nu, typ, freep.value);
      ghost var f: nat :| At(nodes, f, freep.value);
      LinkedAt(mem, nodes, i);
      while !(mem[p].typ == typ && mem[p].size >= nu) && p != freep.value
        invariant At(nodes, i, p) && p in mem
        invariant mem[p] == Header(nodes[NextIdx(|nodes|, i)].addr, nodes[i].size, nodes[i].typ)
        invariant Passed(nodes, i0, i, nu, typ, freep.value)
        invariant if i == i0 then prevp == prevp0 else Precedes(nodes, prevp, i)
        decreases Distance(|nodes|, i, f)
      {
        WalkOn(nodes, i0, i, f, nu, typ, freep.value, p);
        prevp, p := p, mem[p].ptr;
        i := NextIdx(|nodes|, i);
        LinkedAt(mem, nodes, i);
      }
    }

    /** morecore_brk_locked and morecore_shmem_locked. */
    method Morecore(nu: int, typ: bool, r: Region) returns (ok: bool, ghost k: nat)
      requires Valid() && Ring() && nu >= 1 && Grant(nodes, live, brk, nu, typ, r)
      modifies this`mem, this`freep, this`nodes, this`brk
      ensures Valid() && Ring()
      ensures ok == r.Got?
      ensures !ok ==> nodes == old(nodes) && mem == old(mem) && freep == old(freep) && brk == old(brk)
      ensures ok ==>
        var b := Node(r.addr, r.size, typ);
        && Gap(old(nodes), k, b) && nodes == Freed(old(nodes), k, b) && brk == (if typ then old(brk) else b.End())
        && freep.Some? && At(old(nodes), k, freep.value)
        && (forall x, t :: FreeLists.Free(nodes, x, t) <==>
              FreeLists.Free(old(nodes), x, t) || (b.Holds(x) && typ == t))
        && forall i: nat :: i < |old(nodes)| ==>
             var j := Onward(old(nodes), k, b, i);
             0 <= j < |nodes| && old(nodes)[i].addr in mem && mem[old(nodes)[i].addr].ptr == nodes[j].addr
    {
      hide Ok, Gap, Linked, Freed, Relinked, Onward, ApartFrom;
      ok, k := r.Got?, 0;
      if r == Refused {
        return;
      }
      ghost var b, mem0, nodes0 := Node(r.addr, r.size, typ), mem, nodes;
      NewHeader(mem, nodes, live, b, Header(0, r.size, typ));
      mem := mem[r.addr := Header(0, r.size, typ)];
      mem0 := mem;
      k := Insert(r.addr, b);
      if !typ {
        brk := r.addr + r.size;
      }
      HigherBreak(nodes0, live, old(brk), brk);
      FreedLive(mem0, nodes0, live, k, b, brk);
      forall i: nat | i < |nodes0|
        ensures var j := Onward(nodes0, k, b, i);
                0 <= j < |nodes| && nodes0[i].addr in mem && mem[nodes0[i].addr].ptr == nodes[j].addr
      {
        OnwardIs(mem0, nodes0, k, b, i);
      }
      forall x, t
        ensures FreeLists.Free(nodes, x, t) <==> FreeLists.Free(nodes0, x, t) || (b.Holds(x) && typ == t)
      {
        FreedUnits(nodes0, k, b, x, t);
      }
    }

    /** The writes for a block that will do. */
    method Take(prevp: int, p: int, nu: int)
      requires prevp in mem && p in mem && prevp != p
      modifies this`mem, this`freep
      ensures mem == TakenMem(old(mem), prevp, p, nu) && freep == Some(prevp)
    {
      if mem[p].size == nu {
        mem := mem[prevp := mem[prevp].(ptr := mem[p].ptr)];
      } else {
        var np := p + nu;
        mem := mem[prevp := mem[prevp].(ptr := np)];
        mem := mem[np := Header(mem[p].ptr, mem[p].size - nu, mem[p].typ)];
        mem := mem[p := mem[p].(size := nu)];
      }
      freep := Some(prevp);
    }

    /** With the right predecessor the block has left the list. */
    ghost method SettleFound(mem0: Mem, prevp: int, p: int, nu: int, t: nat)
      requires Ok(nodes) && nodes[0].addr == base && Linked(mem0, nodes) && LiveOk(mem0, nodes, live)
      requires BelowBreak(nodes, live, brk) && At(nodes, t, p) && Precedes(nodes, prevp, t) && nu >= 1
      requires nodes[t].size >= nu
      requires prevp in mem0 && p in mem0 && prevp != p && mem == TakenMem(mem0, prevp, p, nu) && freep == Some(prevp)
      modifies this`nodes, this`live
      ensures Valid() && Ring()
      ensures var b := Node(p, nu, old(nodes)[t].typ);
              && b !in old(live) && live == old(live) + {b}
              && (forall x, ty :: b.Holds(x) ==> (FreeLists.Free(old(nodes), x, ty) <==> ty == b.typ))
              && (forall x, ty :: FreeLists.Free(nodes, x, ty) <==> FreeLists.Free(old(nodes), x, ty) && !b.Holds(x))
    {
      hide Ok, Linked, TakenMem, Taken, LiveOk, BelowBreak;
      NotFirst(nodes, t);
      var b, nodes0 := Node(p, nu, nodes[t].typ), nodes;
      PrecedesIs(nodes, prevp, t);
      TakenLive(mem0, nodes, live, t, nu, brk);
      TakenLinked(mem0, nodes, t, nu);
      TakenOk(nodes, t, nu);
      TakenAt(nodes, t, nu);
      live := live + {b};
      nodes := Taken(nodes, t, nu);
      forall x, ty
        ensures b.Holds(x) ==> (FreeLists.Free(nodes0, x, ty) <==> ty == b.typ)
        ensures FreeLists.Free(nodes, x, ty) <==> FreeLists.Free(nodes0, x, ty) && !b.Holds(x)
      {
        TakenUnits(nodes0, t, nu, x, ty);
        OneType(nodes0, x, ty, b.typ);
      }
    }

    /** With one that had been taken over, the block that is handed out is still in the list. */
    ghost method SettleStale(mem0: Mem, prevp: int, p: int, nu: int, t: nat)
      requires Ok(nodes) && nodes[0].addr == base && Linked(mem0, nodes) && LiveOk(mem0, nodes, live)
      requires At(nodes, t, p) && nu >= 1 && nodes[t].size >= nu && freep.Some?
      requires forall i :: 0 <= i < |nodes| ==> nodes[i].addr != prevp
      requires prevp in mem0 && p in mem0 && prevp != p && mem == TakenMem(mem0, prevp, p, nu)
      modifies this`nodes, this`live
      ensures var b := Node(p, nu, old(nodes)[t].typ);
              b !in old(live) && live == old(live) + {b} && b in nodes && Linked(mem, nodes)
      ensures !Valid()
    {
      hide Ok, Linked, TakenMem, BelowBreak;
      NotFirst(nodes, t);
      var b := Node(p, nu, nodes[t].typ);
      StaleIs(mem0, nodes, t, prevp, nu);
      assert !Apart(nodes[t], b);
      live := live + {b};
      nodes := nodes[t := b];
      assert nodes[t] == b && !Apart(nodes[t], b);
    }

    /** The third round of malloc_locked, when the second has ended in front of the first region. */
    method AskAgain(p0: int, nu: int, typ: bool, r: Region, ghost k: nat) returns (res: Option<int>)
      requires Valid() && Ring() && nu >= 1 && Grant(nodes, live, brk, nu, typ, r)
      requires OnlyFit(nodes, k + 1, nu, typ) && At(nodes, k, p0)
      modifies this`mem, this`freep, this`nodes, this`live, this`brk
      ensures res.Some? <==> r.Got?
      ensures res == None ==> Valid() && live == old(live) && nodes == old(nodes)
      ensures res.Some? ==> var b := Node(res.value - 1, nu, typ); b !in old(live) && live == old(live) + {b}
      ensures r.Got? ==> (Valid() <==> !Touch(Node(r.addr, r.size, typ), old(nodes)[k]))
      ensures r.Got? && !Valid() ==> Linked(mem, nodes) && Node(res.value - 1, nu, typ) in nodes
      ensures r.Got? && Valid() ==>
        var b, g := Node(res.value - 1, nu, typ), Node(r.addr, r.size, typ);
        && (forall x, t :: b.Holds(x) ==>
              (FreeLists.Free(old(nodes), x, t) || (g.Holds(x) && t == typ) <==> t == typ))
        && (forall x, t :: FreeLists.Free(nodes, x, t) <==>
              (FreeLists.Free(old(nodes), x, t) || (g.Holds(x) && t == typ)) && !b.Holds(x))
    {
      hide Ok, Linked, Freed, Onward, Absorbed, TouchesNext, TakenMem, LiveOk, BelowBreak, ApartFrom, FreeLists.Free;
      ghost var nodes1, live1 := nodes, live;
      var ok;
      ghost var k2;
      ok, k2 := Morecore(nu, typ, r);
      if !ok {
        return None;
      }
      ghost var g := Node(r.addr, r.size, typ);
      SecondRound(nodes1, k, k2, g, nu, typ);
      TouchAbsorbs(nodes1, k2, g, k);
      ghost var i: nat := Onward(nodes1, k2, g, k);
      var prevp, p := p0, mem[p0].ptr;
      ghost var i0, f0 := i, freep.value;
      prevp, p, i := Walk(prevp, p, nu, typ, i);
      FreedAt(nodes1, k2, g);
      SecondWalk(nodes, k2, i0, i, nu, typ, f0);
      ghost var mem0 := mem;
      LinkedAt(mem, nodes, i);
      FitNotFirst(nodes, i, nu, typ);
      if Absorbed(nodes1, k2, g, k) {
        GoneAt(nodes1, k2, g, k, p0);
      } else {
        PrevOther(mem, nodes, prevp, i);
      }
      Take(prevp, p, nu);
      if Absorbed(nodes1, k2, g, k) {
        SettleStale(mem0, prevp, p, nu, i);
      } else {
        SettleFound(mem0, prevp, p, nu, i);
      }
      return Some(p + 1);
    }

    /** The second round of malloc_locked, when no free block will do. */
    method AskFirst(p0: int, nu: int, typ: bool, r1: Region, r2: Region, ghost i0: nat)
      returns (res: Option<int>, ghost asked: nat)
      requires Valid() && Ring() && nu >= 1 && Grants(nodes, live, brk, nu, typ, r1, r2)
      requires NoFit(nodes, nu, typ) && At(nodes, i0, p0) && freep == Some(p0)
      modifies this`mem, this`freep, this`nodes, this`live, this`brk
      ensures res == None <==> Fails(old(nodes), p0, nu, typ, r1, r2)
      ensures res == None ==> Valid() && live == old(live)
      ensures res.Some? ==> var b := Node(res.value - 1, nu, typ); b !in old(live) && live == old(live) + {b}
      ensures res.Some? ==> (Valid() <==> !Overlaps(old(nodes), p0, nu, typ, r1, r2))
      ensures res.Some? && !Valid() ==> Linked(mem, nodes) && Node(res.value - 1, nu, typ) in nodes
      ensures asked == Regions(old(nodes), p0, nu, typ, r1, r2)
      ensures res.Some? && Valid() ==> Conserved(old(nodes), nodes, Node(res.value - 1, nu, typ), r1, r2, asked)
    {
      hide Ok, Linked, Freed, Onward, Overlaps, LiveOk, BelowBreak, ApartFrom, FreeLists.Free, OnlyFit, NoFit, Grants;
      hide Passed, AsksTwice;
      ghost var nodes0, live0, brk0 := nodes, live, brk;
      asked := 0;
      var ok;
      ghost var k;
      GrantsFirst(nodes, live, brk, nu, typ, r1, r2);
      ok, k := Morecore(nu, typ, r1);
      if !ok {
        return None, 0;
      }
      asked := 1;
      ghost var g := BlockOf(r1, typ);
      ghost var t := Home(nodes0, k, g);
      FirstRound(nodes0, k, g, i0, nu, typ);
      ghost var i1: nat := Onward(nodes0, k, g, i0);
      var prevp, p := p0, mem[p0].ptr;
      ghost var i;
      prevp, p, i := Walk(prevp, p, nu, typ, i1);
      FreedAt(nodes0, k, g);
      FirstWalk(nodes, t, k, i1, i, nu, typ, freep.value);
      LinkedAt(mem, nodes, i);
      if mem[p].typ == typ && mem[p].size >= nu {
        ghost var mem1 := mem;
        FitNotFirst(nodes, i, nu, typ);
        PrevOther(mem, nodes, prevp, i);
        NoOverlap(nodes0, p0, nu, typ, r1, r2, k, i0, i1);
        Take(prevp, p, nu);
        SettleFound(mem1, prevp, p, nu, i);
        return Some(p + 1), 1;
      }
      GrantNext(nodes0, live0, brk0, nu, typ, r1, r2, k);
      FrontIs(nodes0, p0, nu, typ, r1, r2, k, i0);
      res := AskAgain(p, nu, typ, r2, k);
      asked := if res.Some? then 2 else 1;
    }

    /** The first call sets up the list, with nothing in it but the header at the base. */
    method Setup()
      requires Valid()
      modifies this`mem, this`freep
      ensures Valid() && Ring() && freep.Some?
      ensures freep.value == if old(freep) == None then base else old(freep).value
    {
      if freep == None {
        mem := mem[base := Header(base, 0, false)];
        freep := Some(base);
        assert At(nodes, 0, base);
      }
    }

    /**
     malloc_locked for `nu` units; `r1` and `r2` are what the kernel gives when it is asked, which happens at most
     twice. The heap is sound afterwards unless the regions are such that `Overlaps`; then the block that is handed
     out is still in the list of the free ones.
     */
    method MallocLocked(nu: int, typ: bool, r1: Region, r2: Region) returns (res: Option<int>, ghost asked: nat)
      requires Valid() && nu >= 1 && Grants(nodes, live, brk, nu, typ, r1, r2)
      modifies this`mem, this`freep, this`nodes, this`live, this`brk
      ensures res == None <==> Fails(old(nodes), Start(old(freep), base), nu, typ, r1, r2)
      ensures res == None ==> Valid() && live == old(live)
      ensures res.Some? ==> var b := Node(res.value - 1, nu, typ); b !in old(live) && live == old(live) + {b}
      ensures res.Some? ==> (Valid() <==> !Overlaps(old(nodes), Start(old(freep), base), nu, typ, r1, r2))
      ensures res.Some? && !Valid() ==> Linked(mem, nodes) && Node(res.value - 1, nu, typ) in nodes
      ensures asked == Regions(old(nodes), Start(old(freep), base), nu, typ, r1, r2)
      ensures res.Some? && Valid() ==> Conserved(old(nodes), nodes, Node(res.value - 1, nu, typ), r1, r2, asked)
      ensures !NoFit(old(nodes), nu, typ) ==>
                res.Some? && NextFit(old(nodes), Start(old(freep), base), nu, typ, res.value - 1)
    {
      hide Ok, Linked, Overlaps, LiveOk, BelowBreak, ApartFrom, FreeLists.Free, NoFit, Grants, Passed, AsksTwice;
      Setup();
      ghost var nodes0, start := nodes, freep.value;
      ghost var i0: nat :| At(nodes, i0, start);
      LinkedAt(mem, nodes, i0);
      var prevp, p := freep.value, mem[freep.value].ptr;
      ghost var i;
      prevp, p, i := Walk(prevp, p, nu, typ, NextIdx(|nodes|, i0));
      LinkedAt(mem, nodes, i);
      if mem[p].typ == typ && mem[p].size >= nu {
        ghost var mem0 := mem;
        FitNotFirst(nodes, i, nu, typ);
        PrevOther(mem, nodes, prevp, i);
        SomeFit(nodes, i, start, nu, typ, r1, r2);
        assert IsNextFit(nodes, i0, i, start, nu, typ, p);
        Take(prevp, p, nu);
        SettleFound(mem0, prevp, p, nu, i);
        return Some(p + 1), 0;
      }
      NonePassed(nodes, i0, i, nu, typ, start);
      res, asked := AskFirst(p, nu, typ, r1, r2, i0);
    }

    /** malloc and shmem_malloc. */
    method Malloc(size: nat, typ: bool, r1: Region, r2: Region) returns (res: Option<int>, ghost asked: nat)
      requires Valid() && size < TWO_32 && Grants(nodes, live, brk, Units(size), typ, r1, r2)
      modifies this`mem, this`freep, this`nodes, this`live, this`brk
      ensures res == None <==> Fails(old(nodes), Start(old(freep), base), Units(size), typ, r1, r2)
      ensures res == None ==> Valid() && live == old(live)
      ensures res.Some? ==> var b := Node(res.value - 1, Units(size), typ); b !in old(live) && live == old(live) + {b}
      ensures res.Some? ==> (Valid() <==> !Overlaps(old(nodes), Start(old(freep), base), Units(size), typ, r1, r2))
      ensures res.Some? && !Valid() ==> Linked(mem, nodes) && Node(res.value - 1, Units(size), typ) in nodes
      ensures res.Some? && !typ ==> Valid()
      ensures asked == Regions(old(nodes), Start(old(freep), base), Units(size), typ, r1, r2)
      ensures res.Some? && Valid() ==>
                Conserved(old(nodes), nodes, Node(res.value - 1, Units(size), typ), r1, r2, asked)
      ensures !NoFit(old(nodes), Units(size), typ) ==>
                res.Some? && NextFit(old(nodes), Start(old(freep), base), Units(size), typ, res.value - 1)
    {
      hide Ok, Linked, Overlaps, LiveOk, BelowBreak, ApartFrom, FreeLists.Free, Grants, Fails;
      BrkSafe(nodes, live, brk, Start(freep, base), Units(size), typ, r1, r2);
      res, asked := MallocLocked(Units(size), typ, r1, r2);
    }

    /** A program writes into one of its blocks: nothing of the list is there. */
    method Write(b: Node, x: int, h: Header)
      requires Valid() && b in live && b.addr < x < b.End()
      modifies this`mem
      ensures Valid()
    {
      hide Ok, Linked, LiveOk;
      Written(mem, nodes, live, b, x, h);
      mem := mem[x := h];
    }

    /** free: exactly the units of the block become free, and everything in use stays in use. */
    method Free(ap: int, ghost b: Node)
      requires Valid() && b in live && b.addr == ap - 1
      modifies this`mem, this`freep, this`nodes, this`live
      ensures Valid()
      ensures live == old(live) - {b}
      ensures forall x, typ :: FreeLists.Free(nodes, x, typ) <==>
                FreeLists.Free(old(nodes), x, typ) || (b.Holds(x) && b.typ == typ)
    {
      hide Ok, Gap, Linked, Freed, Relinked;
      ghost var mem0, nodes0 := mem, nodes;
      live := live - {b};
      ghost var k := Insert(ap - 1, b);
      FreedLive(mem0, nodes0, live, k, b, brk);
      forall x, typ
        ensures FreeLists.Free(nodes, x, typ) <==> FreeLists.Free(nodes0, x, typ) || (b.Holds(x) && b.typ == typ)
      {
        FreedUnits(nodes0, k, b, x, typ);
      }
    }
  }

  /** In the heap of the example shmem_malloc of 256 bytes leaves the heap broken. */
  method OverlapCall(h: Heap) returns (res: Option<int>)
    requires Example(h.mem, h.nodes, h.live) && h.base == 0 && h.freep == Some(0) && h.brk == 32
    modifies h
    ensures res.Some? && Node(res.value - 1, 5, true) in h.live && Node(res.value - 1, 5, true) in h.nodes && !h.Valid()
  {
    OverlapHappens(h.mem, h.nodes, h.live);
    ExampleFirst(h.mem, h.nodes, h.live);
    hide Ok, Linked, Overlaps, LiveOk, BelowBreak, Grants, Example, NoFit, AsksTwice, InList;
    assert Units(256) == 5;
    ghost var asked;
    res, asked := h.Malloc(256, true, Got(320, 64), Got(64, 64));
  }

  lemma {:induction false} ExampleFirst(mem: Mem, nodes: seq<Node>, live: set<Node>)
    requires Example(mem, nodes, live)
    ensures nodes != [] && nodes[0].addr == 0
  {
  }

  lemma {:induction false} NotFirst(nodes: seq<Node>, t: nat)
    requires Ok(nodes) && t < |nodes| && nodes[t].size >= 1
    ensures t >= 1
  {
  }

  lemma {:induction false} PrecedesIs(nodes: seq<Node>, p: int, t: nat)
    requires 1 <= t < |nodes| && Precedes(nodes, p, t)
    ensures p == nodes[t - 1].addr
  {
  }

  lemma {:induction false} TakenAt(nodes: seq<Node>, t: nat, nu: int)
    requires 1 <= t < |nodes|
    ensures Taken(nodes, t, nu) != [] && Taken(nodes, t, nu)[0] == nodes[0]
    ensures At(Taken(nodes, t, nu), t - 1, nodes[t - 1].addr)
  {
  }

  lemma {:induction false} HigherBreak(nodes: seq<Node>, live: set<Node>, brk: int, brk': int)
    requires BelowBreak(nodes, live, brk) && brk <= brk'
    ensures BelowBreak(nodes, live, brk')
  {
  }

  /** The header of a new region is none of those that are there. */
  lemma {:induction false} NewHeader(mem: Mem, nodes: seq<Node>, live: set<Node>, b: Node, h: Header)
    requires Ok(nodes) && Linked(mem, nodes) && LiveOk(mem, nodes, live) && b.size >= 1 && ApartFrom(nodes, b)
    requires forall c :: c in live ==> Apart(b, c)
    ensures Linked(mem[b.addr := h], nodes) && LiveOk(mem[b.addr := h], nodes, live)
  {
    forall i: nat | i < |nodes|
      ensures nodes[i].addr != b.addr
    {
      LiveAddr(nodes, i, b);
    }
    assert forall c :: c in live ==> Apart(b, c) && c.addr != b.addr;
  }

  /** What is in use does not change when a block becomes free that is apart from it. */
  lemma {:induction false} FreedLive(mem: Mem, nodes: seq<Node>, live: set<Node>, k: nat, b: Node, brk: int)
    requires Ok(nodes) && Gap(nodes, k, b) && LiveOk(mem, nodes, live) && BelowBreak(nodes, live, brk)
    requires b.addr in mem && nodes[k].addr in mem && mem[nodes[k].addr].ptr in mem
    requires (forall c :: c in live ==> Apart(b, c)) && (!b.typ ==> b.End() <= brk)
    ensures LiveOk(Relinked(mem, nodes[k].addr, b.addr), Freed(nodes, k, b), live)
    ensures BelowBreak(Freed(nodes, k, b), live, brk)
  {
    var mem', f := Relinked(mem, nodes[k].addr, b.addr), Freed(nodes, k, b);
    forall c | c in live
      ensures ApartFrom(f, c) && c.addr in mem' && mem'[c.addr] == mem[c.addr]
    {
      FreedApart(nodes, k, b, c);
      assert Apart(b, c) && Apart(nodes[k], c);
    }
    FreedBelow(nodes, k, b, brk);
  }

  lemma {:induction false} FreedBelow(nodes: seq<Node>, k: nat, b: Node, brk: int)
    requires Ok(nodes) && Gap(nodes, k, b) && (!b.typ ==> b.End() <= brk)
    requires forall i :: 0 <= i < |nodes| && !nodes[i].typ ==> nodes[i].End() <= brk
    ensures forall i :: 0 <= i < |Freed(nodes, k, b)| && !Freed(nodes, k, b)[i].typ ==>
        Freed(nodes, k, b)[i].End() <= brk
  {
    var f := Freed(nodes, k, b);
    FreedOk(nodes, k, b);
    forall i | 0 <= i < |f| && !f[i].typ
      ensures f[i].End() <= brk
    {
      if i == 0 {
        FreedAt(nodes, k, b);
      } else {
        var x := f[i].End() - 1;
        assert f[i].Holds(x) && FreeLists.Free(f, x, false);
        FreedUnits(nodes, k, b, x, false);
      }
    }
  }

  lemma {:induction false} OkFirst(nodes: seq<Node>)
    requires Ok(nodes)
    ensures nodes != []
  {
  }

  /** The node in front of the block stays where it is, and so do those before. */
  lemma {:induction false} FreedAt(nodes: seq<Node>, k: nat, b: Node)
    requires k < |nodes|
    ensures At(Freed(nodes, k, b), k, nodes[k].addr) && At(Freed(nodes, k, b), 0, nodes[0].addr)
  {
    SameNode(nodes, k, b);
    assert WithoutNext(nodes, k, b)[..k + 1][0] == nodes[..k + 1][0];
  }
}
