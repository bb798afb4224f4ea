/**
 The free blocks of the user heap (user/libs/malloc.c) as values: in address order, the first one being the
 static header `base` of size 0. Addresses and sizes are in units of a header.
 */
module FreeLists {
  datatype Node = Node(addr: int, size: int, typ: bool) {
    predicate Holds(x: int) {
      addr <= x < addr + size
    }

    function End(): int {
      addr + size
    }
  }

  /** Blocks of one type without a gap, which free_locked joins. */
  predicate Touch(a: Node, b: Node) {
    a.typ == b.typ && a.End() == b.addr
  }

  predicate Before(a: Node, b: Node) {
    a.addr < b.addr && a.End() <= b.addr && !Touch(a, b)
  }

  /** In address order, disjoint, and none that could be joined. */
  ghost predicate Ok(nodes: seq<Node>) {
    && nodes != [] && nodes[0].size == 0 && !nodes[0].typ
    && (forall i :: 1 <= i < |nodes| ==> nodes[i].size >= 1)
    && (forall i, j :: 0 <= i < j < |nodes| ==> Before(nodes[i], nodes[j]))
  }

  /** A unit is free, in a block of that type. */
  ghost predicate Free(nodes: seq<Node>, x: int, typ: bool) {
    exists i :: 0 <= i < |nodes| && nodes[i].Holds(x) && nodes[i].typ == typ
  }

  // ---------- a block becomes free ----------

  /** The block `b` belongs behind the node at `k`. */
  ghost predicate Gap(nodes: seq<Node>, k: nat, b: Node) {
    && k < |nodes| && b.size >= 1 && nodes[k].addr < b.addr && nodes[k].End() <= b.addr
    && (k + 1 < |nodes| ==> b.End() <= nodes[k + 1].addr)
  }

  predicate TouchesNext(nodes: seq<Node>, k: nat, b: Node) {
    k + 1 < |nodes| && Touch(b, nodes[k + 1])
  }

  /** The next node goes, if the block is joined with it. */
  function WithoutNext(nodes: seq<Node>, k: nat, b: Node): (r: seq<Node>)
    requires k < |nodes|
    ensures k < |r| && r[..k + 1] == nodes[..k + 1]
  {
    if TouchesNext(nodes, k, b) then nodes[..k + 1] + nodes[k + 2..] else nodes
  }

  function JoinNext(nodes: seq<Node>, k: nat, b: Node): (r: Node)
    requires k < |nodes|
  {
    if TouchesNext(nodes, k, b) then b.(size := b.size + nodes[k + 1].size) else b
  }

  /** The block goes behind the node at `k`, or is joined with it. */
  function Put(nodes: seq<Node>, k: nat, b: Node): (r: seq<Node>)
    requires k < |nodes|
  {
    if Touch(nodes[k], b) then nodes[k := nodes[k].(size := nodes[k].size + b.size)]
    else nodes[..k + 1] + [b] + nodes[k + 1..]
  }

  /** free_locked. */
  function Freed(nodes: seq<Node>, k: nat, b: Node): (r: seq<Node>)
    requires k < |nodes|
  {
    Put(WithoutNext(nodes, k, b), k, JoinNext(nodes, k, b))
  }

  lemma {:induction false} Ordered(nodes: seq<Node>, i: nat, j: nat)
    requires Ok(nodes) && i < j < |nodes|
    ensures Before(nodes[i], nodes[j])
  {
  }

  /** Inserting a block that touches none of its neighbours. */
  lemma {:induction false} InsertOk(nodes: seq<Node>, k: nat, b: Node)
    requires Ok(nodes) && Gap(nodes, k, b) && !Touch(nodes[k], b) && (k + 1 < |nodes| ==> !Touch(b, nodes[k + 1]))
    ensures Ok(nodes[..k + 1] + [b] + nodes[k + 1..])
  {
    var t := nodes[..k + 1] + [b] + nodes[k + 1..];
    assert t[k + 1] == b && forall i :: 0 <= i < |t| && i != k + 1 ==> t[i] == nodes[if i <= k then i else i - 1];
    forall i | 0 <= i <= k
      ensures Before(nodes[i], b)
    {
      if i < k {
        Ordered(nodes, i, k);
      }
    }
    forall i | k < i < |nodes|
      ensures Before(b, nodes[i])
    {
      if i > k + 1 {
        Ordered(nodes, k + 1, i);
      }
    }
    hide Before;
  }

  /** Taking a node out. */
  lemma {:induction false} RemoveOk(nodes: seq<Node>, k: nat)
    requires Ok(nodes) && 1 <= k < |nodes|
    ensures Ok(nodes[..k] + nodes[k + 1..])
  {
    var t := nodes[..k] + nodes[k + 1..];
    assert forall i :: 0 <= i < |t| ==> t[i] == nodes[if i < k then i else i + 1];
  }

  /** A node grows up to the next one. */
  lemma {:induction false} GrowOk(nodes: seq<Node>, k: nat, size: int)
    requires Ok(nodes) && 1 <= k < |nodes| && size >= 1
    requires k + 1 < |nodes| ==>
      nodes[k].addr + size <= nodes[k + 1].addr && !Touch(nodes[k].(size := size), nodes[k + 1])
    ensures Ok(nodes[k := nodes[k].(size := size)])
  {
    var b := nodes[k].(size := size);
    forall j | k < j < |nodes|
      ensures Before(b, nodes[j])
    {
      if j > k + 1 {
        Ordered(nodes, k + 1, j);
      }
    }
  }

  lemma {:induction false} PutOk(nodes: seq<Node>, k: nat, b: Node)
    requires Ok(nodes) && Gap(nodes, k, b) && !TouchesNext(nodes, k, b)
    ensures Ok(Put(nodes, k, b))
  {
    if Touch(nodes[k], b) {
      GrowOk(nodes, k, nodes[k].size + b.size);
    } else {
      InsertOk(nodes, k, b);
    }
  }

  lemma {:induction false} FreedOk(nodes: seq<Node>, k: nat, b: Node)
    requires Ok(nodes) && Gap(nodes, k, b)
    ensures Ok(Freed(nodes, k, b))
  {
    hide Ok, Put;
    JoinOk(nodes, k, b);
    PutOk(WithoutNext(nodes, k, b), k, JoinNext(nodes, k, b));
  }

  lemma {:induction false} JoinOk(nodes: seq<Node>, k: nat, b: Node)
    requires Ok(nodes) && Gap(nodes, k, b)
    ensures var n1, b1 := WithoutNext(nodes, k, b), JoinNext(nodes, k, b);
            Ok(n1) && Gap(n1, k, b1) && !TouchesNext(n1, k, b1)
  {
    if TouchesNext(nodes, k, b) {
      RemoveOk(nodes, k + 1);
      NextGap(nodes, k, b);
    }
  }

  lemma {:induction false} NextGap(nodes: seq<Node>, k: nat, b: Node)
    requires Ok(nodes) && Gap(nodes, k, b) && k + 1 < |nodes| && Touch(b, nodes[k + 1])
    ensures var n1, b1 := nodes[..k + 1] + nodes[k + 2..], JoinNext(nodes, k, b);
            Gap(n1, k, b1) && !TouchesNext(n1, k, b1)
  {
    if k + 2 < |nodes| {
      Ordered(nodes, k + 1, k + 2);
    }
  }

  // ---------- a block is taken ----------

  /** malloc_locked takes the first `n` units of the node at `k`. */
  function Taken(nodes: seq<Node>, k: nat, n: int): (r: seq<Node>)
    requires 1 <= k < |nodes|
  {
    var p := nodes[k];
    if p.size == n then nodes[..k] + nodes[k + 1..] else nodes[k := Node(p.addr + n, p.size - n, p.typ)]
  }

  lemma {:induction false} TakenOk(nodes: seq<Node>, k: nat, n: int)
    requires Ok(nodes) && 1 <= k < |nodes| && 1 <= n <= nodes[k].size
    ensures Ok(Taken(nodes, k, n))
  {
    if nodes[k].size == n {
      RemoveOk(nodes, k);
    }
  }

  // ---------- conservation ----------

  lemma {:induction false} FreeInsert(nodes: seq<Node>, k: nat, b: Node, x: int, typ: bool)
    requires k <= |nodes|
    ensures Free(nodes[..k] + [b] + nodes[k..], x, typ) <==> Free(nodes, x, typ) || (b.Holds(x) && b.typ == typ)
  {
    var t := nodes[..k] + [b] + nodes[k..];
    if i :| 0 <= i < |nodes| && nodes[i].Holds(x) && nodes[i].typ == typ {
      assert t[if i < k then i else i + 1] == nodes[i];
    }
    assert t[k] == b;
    if i :| 0 <= i < |t| && t[i].Holds(x) && t[i].typ == typ {
      assert i != k ==> t[i] == nodes[if i < k then i else i - 1];
    }
  }

  lemma {:induction false} FreeRemove(nodes: seq<Node>, k: nat, x: int, typ: bool)
    requires k < |nodes|
    ensures Free(nodes, x, typ) <==>
              Free(nodes[..k] + nodes[k + 1..], x, typ) || (nodes[k].Holds(x) && nodes[k].typ == typ)
  {
    var rest := nodes[..k] + nodes[k + 1..];
    FreeInsert(rest, k, nodes[k], x, typ);
    assert rest[..k] + [nodes[k]] + rest[k..] == nodes;
  }

  lemma {:induction false} FreeReplace(nodes: seq<Node>, k: nat, b: Node, x: int, typ: bool)
    requires k < |nodes|
    ensures Free(nodes[k := b], x, typ) <==>
              Free(nodes[..k] + nodes[k + 1..], x, typ) || (b.Holds(x) && b.typ == typ)
  {
    FreeRemove(nodes[k := b], k, x, typ);
    assert nodes[k := b][..k] + nodes[k := b][k + 1..] == nodes[..k] + nodes[k + 1..];
  }

  lemma {:induction false} JoinUnits(nodes: seq<Node>, k: nat, b: Node, x: int, typ: bool)
    requires Ok(nodes) && Gap(nodes, k, b)
    ensures var n1, b1 := WithoutNext(nodes, k, b), JoinNext(nodes, k, b);
            Free(n1, x, typ) || (b1.Holds(x) && b1.typ == typ) <==> Free(nodes, x, typ) || (b.Holds(x) && b.typ == typ)
  {
    hide Free;
    if TouchesNext(nodes, k, b) {
      assert nodes[k + 1].size >= 1;
      FreeRemove(nodes, k + 1, x, typ);
    }
  }

  lemma {:induction false} PutUnits(nodes: seq<Node>, k: nat, b: Node, x: int, typ: bool)
    requires Ok(nodes) && k < |nodes| && b.size >= 1
    ensures Free(Put(nodes, k, b), x, typ) <==> Free(nodes, x, typ) || (b.Holds(x) && b.typ == typ)
  {
    hide Free;
    if Touch(nodes[k], b) {
      assert nodes[k].size >= 0;
      FreeReplace(nodes, k, nodes[k].(size := nodes[k].size + b.size), x, typ);
      FreeRemove(nodes, k, x, typ);
    } else {
      FreeInsert(nodes, k + 1, b, x, typ);
    }
  }

  /** What has become free is the block, and nothing else. */
  lemma {:induction false} FreedUnits(nodes: seq<Node>, k: nat, b: Node, x: int, typ: bool)
    requires Ok(nodes) && Gap(nodes, k, b)
    ensures Free(Freed(nodes, k, b), x, typ) <==> Free(nodes, x, typ) || (b.Holds(x) && b.typ == typ)
  {
    hide Ok, Free, Put, WithoutNext, JoinNext;
    JoinOk(nodes, k, b);
    JoinUnits(nodes, k, b, x, typ);
    GapSize(WithoutNext(nodes, k, b), k, JoinNext(nodes, k, b));
    PutUnits(WithoutNext(nodes, k, b), k, JoinNext(nodes, k, b), x, typ);
  }

  lemma {:induction false} GapSize(nodes: seq<Node>, k: nat, b: Node)
    requires Gap(nodes, k, b)
    ensures b.size >= 1 && k < |nodes|
  {
  }

  /** Two blocks never hold the same unit. */
  lemma {:induction false} OneHolds(nodes: seq<Node>, i: nat, j: nat, x: int)
    requires Ok(nodes) && i < |nodes| && j < |nodes| && nodes[i].Holds(x) && nodes[j].Holds(x)
    ensures i == j
  {
  }

  lemma {:induction false} OneType(nodes: seq<Node>, x: int, t: bool, t': bool)
    requires Ok(nodes)
    ensures Free(nodes, x, t) && Free(nodes, x, t') ==> t == t'
  {
    if Free(nodes, x, t) && Free(nodes, x, t') {
      var i :| 0 <= i < |nodes| && nodes[i].Holds(x) && nodes[i].typ == t;
      var j :| 0 <= j < |nodes| && nodes[j].Holds(x) && nodes[j].typ == t';
      OneHolds(nodes, i, j, x);
    }
  }

  /** What has been taken was free, of the node's type, and is so no more; nothing else changes. */
  lemma {:induction false} TakenUnits(nodes: seq<Node>, k: nat, n: int, x: int, typ: bool)
    requires Ok(nodes) && 1 <= k < |nodes| && 1 <= n <= nodes[k].size
    ensures var r := Node(nodes[k].addr, n, nodes[k].typ);
            && (r.Holds(x) ==> Free(nodes, x, r.typ))
            && (Free(Taken(nodes, k, n), x, typ) <==> Free(nodes, x, typ) && !r.Holds(x))
  {
    var p, rest := nodes[k], nodes[..k] + nodes[k + 1..];
    FreeRemove(nodes, k, x, typ);
    if nodes[k].size != n {
      FreeReplace(nodes, k, Node(p.addr + n, p.size - n, p.typ), x, typ);
    }
    if p.Holds(x) {
      RestApart(nodes, k, x, typ);
    }
  }

  lemma {:induction false} RestApart(nodes: seq<Node>, k: nat, x: int, typ: bool)
    requires Ok(nodes) && k < |nodes| && nodes[k].Holds(x)
    ensures !Free(nodes[..k] + nodes[k + 1..], x, typ)
  {
    var rest := nodes[..k] + nodes[k + 1..];
    forall i | 0 <= i < |rest|
      ensures !rest[i].Holds(x)
    {
      assert rest[i] == nodes[if i < k then i else i + 1];
      if i < k {
        Ordered(nodes, i, k);
      } else {
        Ordered(nodes, k, i + 1);
      }
    }
  }
}
