/**
 The arithmetic of the buddy system: blocks of 2^k pages, aligned relative to the first page of
 their zone. Free memory is a map from the first page of each free block to its order. In canonical
 form, where no two buddies are both free, the blocks are determined by the set of free pages.
 */
module Blocks {
  const MAX_ORDER: nat := 10

  function Pow2(k: nat): (r: int)
    ensures r >= 1
  {
    if k == 0 then 1 else 2 * Pow2(k - 1)
  }

  /** A zone of pages, [base, end). */
  datatype Zone = Zone(base: int, end: int)

  /** The zone of each page that is in one. */
  type Layout = map<int, Zone>

  ghost predicate Zoned(w: Layout) {
    forall p, q {:trigger InZoneOf(w, p, q)} :: InZoneOf(w, p, q) ==> q in w && w[q] == w[p]
  }

  predicate InZoneOf(w: Layout, p: int, q: int) {
    p in w && w[p].base <= q < w[p].end
  }

  ghost predicate InZones(w: Layout) {
    forall p :: p in w ==> w[p].base <= p < w[p].end
  }

  /** The `2^k` pages from `p` on are a place for a block: aligned, and within a zone. */
  ghost predicate Aligned(w: Layout, p: int, k: nat) {
    && p in w && k <= MAX_ORDER && w[p].base <= p && p + Pow2(k) <= w[p].end
    && (p - w[p].base) % Pow2(k) == 0
  }

  /** The free blocks: the order of the block that starts at a page. */
  type Blocks = map<int, nat>

  ghost predicate Apart(p: int, k: nat, q: int, j: nat) {
    p + Pow2(k) <= q || q + Pow2(j) <= p
  }

  ghost predicate Disjoint(b: Blocks) {
    forall p, q {:trigger Apart(p, b[p], q, b[q])} :: p in b && q in b && p != q ==> Apart(p, b[p], q, b[q])
  }

  ghost predicate WellPlaced(w: Layout, b: Blocks) {
    forall p {:trigger Aligned(w, p, b[p])} :: p in b ==> Aligned(w, p, b[p])
  }

  /** The block at `p` holds the page `x`. */
  ghost predicate HeldBy(b: Blocks, x: int, p: int) {
    p in b && p <= x < p + Pow2(b[p])
  }

  ghost predicate Covered(b: Blocks, x: int) {
    exists p :: HeldBy(b, x, p)
  }

  /** The index that differs in the bit of value `m`; `i` is a multiple of `m`. */
  function BuddyIdx(i: int, m: int): int
    requires m > 0
  {
    if i % (2 * m) == 0 then i + m else i - m
  }

  function BuddyOf(w: Layout, p: int, k: nat): int
    requires p in w
  {
    w[p].base + BuddyIdx(p - w[p].base, Pow2(k))
  }

  /** No block could be merged with its buddy. */
  ghost predicate Canonical(w: Layout, b: Blocks) {
    forall p {:trigger BuddyFree(w, b, p, b[p])} :: p in b && b[p] < MAX_ORDER && p in w ==> !BuddyFree(w, b, p, b[p])
  }

  /** The buddy of the block at `p` is a free block of the same order in the same zone: page_is_buddy. */
  ghost predicate BuddyFree(w: Layout, b: Blocks, p: int, k: nat)
    requires p in w
  {
    var q := BuddyOf(w, p, k);
    IsBlock(b, q, k) && q in w && w[q] == w[p]
  }

  ghost predicate IsBlock(b: Blocks, p: int, k: nat) {
    p in b && b[p] == k
  }

  ghost predicate Good(w: Layout, b: Blocks) {
    InZones(w) && Zoned(w) && WellPlaced(w, b) && Disjoint(b) && Canonical(w, b)
  }

  // ---------- arithmetic ----------

  lemma {:induction false} Multiple(i: int, m: int)
    requires m > 0 && i % (2 * m) == 0
    ensures i % m == 0
  {
    assert i == m * (2 * (i / (2 * m)));
    MultipleOf(2 * (i / (2 * m)), m);
  }

  lemma {:induction false} MultipleOf(q: int, m: int)
    requires m > 0
    ensures (m * q) % m == 0
  {
    assert m * q == q * m + 0;
    QuotientUnique(m * q, m, q, 0);
  }

  lemma {:induction false} Far(d: int, m: int)
    requires m > 0 && d != 0
    ensures d * m >= m || d * m <= -m
  {
  }

  lemma {:induction false} QuotientUnique(a: int, m: int, q: int, r: int)
    requires m > 0 && a == q * m + r && 0 <= r < m
    ensures a / m == q && a % m == r
  {
    var d := a / m - q;
    assert d * m == (a / m) * m - q * m;
    if d != 0 {
      Far(d, m);
    }
  }

  lemma {:induction false} AddMultiple(a: int, m: int)
    requires m > 0
    ensures (a + m) % m == a % m && (a - m) % m == a % m
  {
    QuotientUnique(a + m, m, a / m + 1, a % m);
    QuotientUnique(a - m, m, a / m - 1, a % m);
  }

  lemma {:induction false} Twice(h: int, m: int)
    ensures (2 * h) * m == h * (2 * m)
  {
  }

  /** A multiple of `m` is a multiple of `2m`, or `m` more than one. */
  lemma {:induction false} HalfOrWhole(i: int, m: int)
    requires m > 0 && i % m == 0
    ensures i % (2 * m) == 0 || i % (2 * m) == m
  {
    var h := i / m / 2;
    Twice(h, m);
    if i / m == 2 * h {
      QuotientUnique(i, 2 * m, h, 0);
    } else {
      assert i == (2 * h + 1) * m == (2 * h) * m + m;
      QuotientUnique(i, 2 * m, h, m);
    }
  }

  /** Two multiples of `m` less than `m` apart are the same. */
  lemma {:induction false} MultiplesEqual(a: int, b: int, m: int)
    requires m > 0 && a % m == 0 && b % m == 0 && b <= a < b + m
    ensures a == b
  {
    QuotientUnique(a, m, b / m, a - b);
  }

  /** A smaller aligned block that starts in a larger one lies in it. */
  lemma {:induction false} Nested(a: int, k: nat, b: int, j: nat)
    requires k <= j && a % Pow2(k) == 0 && b % Pow2(j) == 0 && b <= a < b + Pow2(j)
    ensures a + Pow2(k) <= b + Pow2(j)
    decreases j
  {
    if k == j {
      MultiplesEqual(a, b, Pow2(k));
    } else {
      var m := Pow2(j - 1);
      Multiple(b, m);
      AddMultiple(b, m);
      if a < b + m {
        Nested(a, k, b, j - 1);
      } else {
        Nested(a, k, b + m, j - 1);
      }
    }
  }

  /** The buddy of a buddy, and where the two blocks together are. */
  lemma {:induction false} BuddyPair(i: int, m: int)
    requires m > 0 && i % m == 0
    ensures var j := BuddyIdx(i, m);
            && BuddyIdx(j, m) == i && j % m == 0
            && (if i < j then j == i + m else i == j + m)
            && (if i < j then i else j) % (2 * m) == 0
  {
    HalfOrWhole(i, m);
    AddMultiple(i, m);
    var j := BuddyIdx(i, m);
    if i % (2 * m) == 0 {
      QuotientUnique(j, 2 * m, i / (2 * m), m);
    } else {
      QuotientUnique(j, 2 * m, i / (2 * m), 0);
    }
  }

  // ---------- bit operations ----------

  /** `a ^ b`, digit by digit. */
  function Xor(a: nat, b: nat): nat {
    if a == 0 && b == 0 then 0 else 2 * Xor(a / 2, b / 2) + (a % 2 + b % 2) % 2
  }

  /** `a & b`, digit by digit. */
  function And(a: nat, b: nat): nat {
    if a == 0 || b == 0 then 0 else 2 * And(a / 2, b / 2) + (a % 2) * (b % 2)
  }

  lemma {:induction false} XorZero(a: nat)
    ensures Xor(a, 0) == a
  {
    if a > 0 {
      XorZero(a / 2);
    }
  }

  lemma {:induction false} XorLast(i: nat)
    ensures Xor(i, 1) == BuddyIdx(i, 1)
  {
    XorZero(i / 2);
  }

  lemma {:induction false} XorEven(i: nat, m: nat)
    requires i % 2 == 0
    ensures Xor(i, 2 * m) == 2 * Xor(i / 2, m)
  {
  }

  lemma {:induction false} AndSame(a: nat)
    ensures And(a, a) == a
  {
    if a > 0 {
      AndSame(a / 2);
      assert a % 2 == 0 || a % 2 == 1;
    }
  }

  lemma {:induction false} HalfRest(i: nat, m: int)
    requires m > 0 && i % 2 == 0
    ensures i % (2 * m) == 2 * ((i / 2) % m)
  {
    var q, r := (i / 2) / m, (i / 2) % m;
    assert i == 2 * (q * m + r) == q * (2 * m) + 2 * r by {
      Twice(q, m);
    }
    QuotientUnique(i, 2 * m, q, 2 * r);
  }

  /** The half of a multiple of `2m`. */
  lemma {:induction false} HalfMultiple(i: nat, m: int)
    requires m > 0 && i % (2 * m) == 0
    ensures i % 2 == 0 && (i / 2) % m == 0
    ensures BuddyIdx(i, 2 * m) == 2 * BuddyIdx(i / 2, m)
  {
    var q := i / (2 * m);
    assert i == 2 * (q * m) by {
      Twice(q, m);
    }
    QuotientUnique(i / 2, m, q, 0);
    HalfRest(i, 2 * m);
  }

  /** Flipping the bit of the order gives the index of the buddy. */
  lemma {:induction false} XorIsBuddy(i: nat, k: nat)
    requires i % Pow2(k) == 0
    ensures Xor(i, Pow2(k)) == BuddyIdx(i, Pow2(k))
  {
    hide BuddyIdx, Xor;
    if k == 0 {
      XorLast(i);
    } else {
      HalfMultiple(i, Pow2(k - 1));
      XorEven(i, Pow2(k - 1));
      XorIsBuddy(i / 2, k - 1);
    }
  }

  /** And the common bits of the two are the index of the two blocks together. */
  lemma {:induction false} AndIsFirst(i: nat, j: nat, k: nat)
    requires i % Pow2(k) == 0 && j == BuddyIdx(i, Pow2(k))
    ensures And(i, j) == if i < j then i else j
  {
    if k == 0 {
      AndSame(i / 2);
      assert i / 2 == j / 2;
    } else {
      HalfMultiple(i, Pow2(k - 1));
      AndIsFirst(i / 2, j / 2, k - 1);
    }
  }

  /** The bit of the order is what is missing to the next alignment. */
  lemma {:induction false} AndIsBit(i: nat, k: nat)
    requires i % Pow2(k) == 0
    ensures And(i, Pow2(k)) == 0 <==> i % (2 * Pow2(k)) == 0
  {
    if k > 0 {
      HalfMultiple(i, Pow2(k - 1));
      HalfRest(i, Pow2(k));
      AndIsBit(i / 2, k - 1);
    }
  }

  // ---------- the canonical form ----------

  /** All pages of the run are free. */
  ghost predicate RunFree(b: Blocks, p: int, k: nat) {
    forall x :: p <= x < p + Pow2(k) ==> Covered(b, x)
  }

  /** The two halves of an aligned run. */
  lemma {:induction false} Halves(w: Layout, p: int, k: nat)
    requires InZones(w) && Zoned(w) && Aligned(w, p, k) && k > 0
    ensures var m := Pow2(k - 1);
            && Aligned(w, p, k - 1) && Aligned(w, p + m, k - 1) && w[p + m] == w[p] && p + m + m == p + Pow2(k)
            && BuddyOf(w, p, k - 1) == p + m && BuddyOf(w, p + m, k - 1) == p
  {
    var i, m := p - w[p].base, Pow2(k - 1);
    assert InZoneOf(w, p, p + m);
    Multiple(i, m);
    AddMultiple(i, m);
    BuddyPair(i, m);
  }

  /** A block that holds the first page of an aligned run and is not smaller holds the whole run. */
  lemma {:induction false} BlockHolds(w: Layout, b: Blocks, p: int, k: nat, q: int)
    requires InZones(w) && Zoned(w) && WellPlaced(w, b) && Aligned(w, p, k) && HeldBy(b, p, q) && k <= b[q]
    ensures p + Pow2(k) <= q + Pow2(b[q]) && q in w && w[q] == w[p]
  {
    assert Aligned(w, q, b[q]) && InZoneOf(w, q, p);
    assert w[q] == w[p];
    Nested(p - w[p].base, k, q - w[p].base, b[q]);
  }

  /** The order of a block that holds an aligned run inside it is not smaller. */
  lemma {:induction false} Larger(k: nat, j: nat)
    requires Pow2(k) <= Pow2(j)
    ensures k <= j
  {
    if j < k {
      Growing(j, k);
    }
  }

  lemma {:induction false} Growing(j: nat, k: nat)
    requires j < k
    ensures Pow2(j) < Pow2(k)
  {
    if j + 1 < k {
      Growing(j, k - 1);
    }
  }

  lemma {:induction false} OneHolder(b: Blocks, x: int, p: int, q: int)
    requires Disjoint(b) && HeldBy(b, x, p) && HeldBy(b, x, q)
    ensures p == q
  {
    assert Apart(p, b[p], q, b[q]) || p == q;
  }

  /** The first half of a free run is no block of its own: its buddy would be one too. */
  lemma {:induction false} NoHalf(w: Layout, b: Blocks, p: int, k: nat, q: int, q1: int)
    requires Good(w, b) && Aligned(w, p, k) && k > 0
    requires HeldBy(b, p, q) && HeldBy(b, p + Pow2(k - 1), q1) && k - 1 <= b[q1]
    ensures b[q] != k - 1
  {
    if b[q] == k - 1 {
      var m := Pow2(k - 1);
      Halves(w, p, k);
      SameStart(w, b, p, k - 1, q);
      assert !BuddyFree(w, b, p, b[p]);
      if b[q1] == k - 1 {
        SameStart(w, b, p + m, k - 1, q1);
      } else {
        HoldsBoth(w, b, p, k, q1);
        OneHolder(b, p, q, q1);
      }
    }
  }

  /** In canonical form every aligned run of free pages lies inside one free block. */
  lemma {:induction false} RunInBlock(w: Layout, b: Blocks, p: int, k: nat) returns (q: int)
    requires Good(w, b) && Aligned(w, p, k) && RunFree(b, p, k)
    ensures HeldBy(b, p, q) && k <= b[q] && p + Pow2(k) <= q + Pow2(b[q])
    decreases k
  {
    assert Covered(b, p);
    q :| HeldBy(b, p, q);
    if k > 0 {
      var m := Pow2(k - 1);
      Halves(w, p, k);
      var q0 := RunInBlock(w, b, p, k - 1);
      var q1 := RunInBlock(w, b, p + m, k - 1);
      OneHolder(b, p, q0, q);
      NoHalf(w, b, p, k, q, q1);
    }
    BlockHolds(w, b, p, k, q);
  }

  /** A block that holds the first page of an aligned run of its own size is that run. */
  lemma {:induction false} SameStart(w: Layout, b: Blocks, p: int, k: nat, q: int)
    requires InZones(w) && Zoned(w) && WellPlaced(w, b) && Aligned(w, p, k) && HeldBy(b, p, q) && k == b[q]
    ensures p == q
  {
    assert Aligned(w, q, b[q]) && InZoneOf(w, q, p);
    assert w[q] == w[p];
    MultiplesEqual(p - w[p].base, q - w[p].base, Pow2(k));
  }

  /** A block larger than a half of a run that holds the second half also holds the first. */
  lemma {:induction false} HoldsBoth(w: Layout, b: Blocks, p: int, k: nat, q: int)
    requires InZones(w) && Zoned(w) && WellPlaced(w, b) && Aligned(w, p, k) && k > 0
    requires HeldBy(b, p + Pow2(k - 1), q) && k <= b[q]
    ensures HeldBy(b, p, q)
  {
    Halves(w, p, k);
    assert Aligned(w, q, b[q]) && InZoneOf(w, q, p + Pow2(k - 1));
    assert w[q] == w[p];
    var i, j := p - w[p].base, q - w[p].base;
    if p < q {
      // the block would start inside the aligned run, and reach out of it
      NotInside(i, k, j, b[q]);
    }
  }

  /** No aligned block starts behind the start of a smaller aligned run, but inside of it. */
  lemma {:induction false} NotInside(i: int, k: nat, j: int, n: nat)
    requires k <= n && i % Pow2(k) == 0 && j % Pow2(n) == 0
    ensures !(i < j < i + Pow2(k))
    decreases n
  {
    if k < n {
      Multiple(j, Pow2(n - 1));
      NotInside(i, k, j, n - 1);
    } else if i < j < i + Pow2(k) {
      MultiplesEqual(j, i, Pow2(k));
    }
  }

  /** The free pages determine the free blocks. */
  lemma {:induction false} SamePagesSameBlocks(w: Layout, b: Blocks, c: Blocks)
    requires Good(w, b) && Good(w, c) && forall x :: Covered(b, x) <==> Covered(c, x)
    ensures b == c
  {
    forall p | p in b
      ensures p in c && c[p] == b[p]
    {
      SameBlock(w, b, c, p);
    }
    forall p | p in c
      ensures p in b && b[p] == c[p]
    {
      SameBlock(w, c, b, p);
    }
  }

  lemma {:induction false} SameBlock(w: Layout, b: Blocks, c: Blocks, p: int)
    requires Good(w, b) && Good(w, c) && p in b && forall x :: Covered(b, x) <==> Covered(c, x)
    ensures p in c && c[p] == b[p]
  {
    BlockFree(b, p);
    assert Aligned(w, p, b[p]);
    var q := RunInBlock(w, c, p, b[p]);
    BlockFree(c, q);
    assert Aligned(w, q, c[q]);
    var p' := RunInBlock(w, b, q, c[q]);
    OneHolder(b, p, p, p');
    Larger(c[q], b[p]);
  }

  lemma {:induction false} BlockFree(b: Blocks, p: int)
    requires p in b
    ensures RunFree(b, p, b[p])
  {
    forall x | p <= x < p + Pow2(b[p])
      ensures Covered(b, x)
    {
      assert HeldBy(b, x, p);
    }
  }

  // ---------- steps ----------

  ghost predicate ApartFrom(b: Blocks, p: int, k: nat) {
    forall q {:trigger Apart(p, k, q, b[q])} :: q in b ==> Apart(p, k, q, b[q])
  }

  /** The free pages, as a set. */
  ghost predicate FreePages(b: Blocks, free: set<int>) {
    forall x :: x in free <==> Covered(b, x)
  }

  function Range(p: int, n: nat): set<int> {
    if n == 0 then {} else Range(p, n - 1) + {p + n - 1}
  }

  lemma {:induction false} InRange(p: int, n: nat)
    ensures |Range(p, n)| == n
    ensures forall x :: x in Range(p, n) <==> p <= x < p + n
  {
    if n > 0 {
      InRange(p, n - 1);
    }
  }

  /** A run without a free page is apart from all free blocks. */
  lemma {:induction false} UsedApart(b: Blocks, p: int, k: nat)
    requires forall x :: p <= x < p + Pow2(k) ==> !Covered(b, x)
    ensures ApartFrom(b, p, k)
  {
    forall q | q in b
      ensures Apart(p, k, q, b[q])
    {
      var x := if p < q then q else p;
      assert !Apart(p, k, q, b[q]) ==> HeldBy(b, x, q);
      assert HeldBy(b, x, q) ==> Covered(b, x);
    }
  }

  /** Buddies in one zone are buddies of each other. */
  lemma {:induction false} BuddyOfBuddy(w: Layout, p: int, q: int, k: nat)
    requires Aligned(w, q, k) && p in w && BuddyOf(w, q, k) == p && w[p] == w[q]
    ensures BuddyOf(w, p, k) == q
  {
    BuddyPair(q - w[q].base, Pow2(k));
  }

  /** A new block is covered with its pages. */
  lemma {:induction false} AddCovered(b: Blocks, p: int, k: nat, x: int)
    requires p !in b
    ensures Covered(b[p := k], x) <==> Covered(b, x) || p <= x < p + Pow2(k)
  {
    var c := b[p := k];
    if Covered(b, x) {
      var q :| HeldBy(b, x, q);
      assert HeldBy(c, x, q);
    }
    if p <= x < p + Pow2(k) {
      assert HeldBy(c, x, p);
    }
    if Covered(c, x) {
      var q :| HeldBy(c, x, q);
      assert q != p ==> HeldBy(b, x, q);
    }
  }

  lemma {:induction false} ApartUncovered(b: Blocks, p: int, k: nat, x: int)
    requires ApartFrom(b, p, k) && p <= x < p + Pow2(k)
    ensures !Covered(b, x)
  {
    forall q
      ensures !HeldBy(b, x, q)
    {
      assert q in b ==> Apart(p, k, q, b[q]);
    }
  }

  lemma {:induction false} AddCanonical(w: Layout, b: Blocks, p: int, k: nat)
    requires WellPlaced(w, b) && Canonical(w, b) && Aligned(w, p, k) && p !in b
    requires k < MAX_ORDER ==> !BuddyFree(w, b, p, k)
    ensures Canonical(w, b[p := k])
  {
    var c := b[p := k];
    forall q | q in c && c[q] < MAX_ORDER && q in w
      ensures !BuddyFree(w, c, q, c[q])
    {
      var j := c[q];
      assert q == p || Aligned(w, q, b[q]);
      assert q == p || !BuddyFree(w, b, q, b[q]);
      BuddyPair(q - w[q].base, Pow2(j));
      if q != p && BuddyOf(w, q, j) == p && w[p] == w[q] && j == k {
        BuddyOfBuddy(w, p, q, k);
      }
    }
  }

  /** A block comes to the free ones: its pages become free, and nothing else. */
  lemma {:induction false} AddBlock(w: Layout, b: Blocks, free: set<int>, p: int, k: nat)
    requires Good(w, b) && FreePages(b, free) && Aligned(w, p, k) && ApartFrom(b, p, k)
    requires k < MAX_ORDER ==> !BuddyFree(w, b, p, k)
    ensures p !in b && Good(w, b[p := k])
    ensures FreePages(b[p := k], free + Range(p, Pow2(k))) && free !! Range(p, Pow2(k))
  {
    var c := b[p := k];
    InRange(p, Pow2(k));
    assert p !in b by {
      assert p in b ==> Apart(p, k, p, b[p]);
    }
    AddCanonical(w, b, p, k);
    forall q, r | q in c && r in c && q != r
      ensures Apart(q, c[q], r, c[r])
    {
      assert q != p ==> Apart(p, k, q, b[q]);
      assert r != p ==> Apart(p, k, r, b[r]);
      assert q != p && r != p ==> Apart(q, b[q], r, b[r]);
    }
    forall q | q in c
      ensures Aligned(w, q, c[q])
    {
      assert q != p ==> Aligned(w, q, b[q]);
    }
    forall x
      ensures Covered(c, x) <==> Covered(b, x) || p <= x < p + Pow2(k)
      ensures p <= x < p + Pow2(k) ==> !Covered(b, x)
    {
      AddCovered(b, p, k, x);
      if p <= x < p + Pow2(k) {
        ApartUncovered(b, p, k, x);
      }
    }
    forall x | x in free
      ensures x !in Range(p, Pow2(k))
    {
      assert Covered(b, x);
    }
  }

  /** A block is taken from the free ones. */
  lemma {:induction false} RemoveBlock(w: Layout, b: Blocks, free: set<int>, p: int)
    requires Good(w, b) && FreePages(b, free) && p in b
    ensures Good(w, b - {p}) && Range(p, Pow2(b[p])) <= free && FreePages(b - {p}, free - Range(p, Pow2(b[p])))
    ensures ApartFrom(b - {p}, p, b[p]) && Aligned(w, p, b[p])
  {
    var c := b - {p};
    InRange(p, Pow2(b[p]));
    BlockFree(b, p);
    forall x | x in Range(p, Pow2(b[p]))
      ensures x in free
    {
      assert Covered(b, x);
    }
    forall x
      ensures Covered(c, x) <==> Covered(b, x) && !(p <= x < p + Pow2(b[p]))
    {
      if Covered(c, x) {
        var q :| HeldBy(c, x, q);
        assert HeldBy(b, x, q) && Apart(p, b[p], q, b[q]);
      } else if Covered(b, x) {
        var q :| HeldBy(b, x, q);
        assert q != p ==> HeldBy(c, x, q);
      }
    }
    forall q | q in c && c[q] < MAX_ORDER && q in w
      ensures !BuddyFree(w, c, q, c[q])
    {
      assert !BuddyFree(w, b, q, b[q]);
    }
  }

  /** The free buddy is taken, and the two together are an aligned block of the next order. */
  lemma {:induction false} Merge(w: Layout, b: Blocks, p: int, k: nat)
    requires Good(w, b) && Aligned(w, p, k) && ApartFrom(b, p, k) && k < MAX_ORDER && BuddyFree(w, b, p, k)
    ensures var q := BuddyOf(w, p, k); var p' := if p < q then p else q;
            && p' in w && w[p'] == w[p] && Aligned(w, p', k + 1) && ApartFrom(b - {q}, p', k + 1)
            && Range(p', Pow2(k + 1)) == Range(p, Pow2(k)) + Range(q, Pow2(k))
  {
    var q := BuddyOf(w, p, k);
    BuddyPair(p - w[p].base, Pow2(k));
    assert Aligned(w, q, k);
    var p', m := if p < q then p else q, Pow2(k);
    assert Pow2(k + 1) == m + m;
    RangeHalves(p', m, m);
    forall r | r in b && r != q
      ensures Apart(p', k + 1, r, b[r])
    {
      assert Apart(p, k, r, b[r]) && Apart(q, k, r, b[r]);
      assert Pow2(b[r]) >= 1;
      Between(p', m, r, Pow2(b[r]));
    }
  }

  lemma {:induction false} Between(p: int, m: int, r: int, n: int)
    requires m >= 1 && n >= 1
    requires (p + m <= r || r + n <= p) && (p + m + m <= r || r + n <= p + m)
    ensures p + 2 * m <= r || r + n <= p
  {
  }

  /** What is apart from a block is apart from its halves. */
  lemma {:induction false} HalvesApart(b: Blocks, p: int, k: nat)
    requires ApartFrom(b, p, k) && k > 0
    ensures var m := Pow2(k - 1);
            p !in b && ApartFrom(b, p + m, k - 1) && ApartFrom(b[p + m := k - 1], p, k - 1)
  {
    var m := Pow2(k - 1);
    forall q | q in b
      ensures Apart(p + m, k - 1, q, b[q]) && Apart(p, k - 1, q, b[q]) && q != p
    {
      assert Apart(p, k, q, b[q]);
    }
  }

  lemma {:induction false} RangeHalves(p: int, m: nat, n: nat)
    ensures Range(p, m + n) == Range(p, m) + Range(p + m, n) && Range(p, m) !! Range(p + m, n)
  {
    InRange(p, m + n);
    InRange(p, m);
    InRange(p + m, n);
    forall x
      ensures x in Range(p, m + n) <==> x in Range(p, m) || x in Range(p + m, n)
      ensures !(x in Range(p, m) && x in Range(p + m, n))
    {
    }
  }
}
