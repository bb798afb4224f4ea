/**
 The slabs of all caches as values (kern/mm/slab.c): the objects that are free are linked by their numbers in the
 control structure, and what holds of slabs, pages and lists at all times.
 */
module SlabSteps {
  import opened Defs
  import opened Lists
  import opened SlabSizes
  import Blocks

  const BUFCTL_END: int := 0xFFFF_FFFF

  /** slab_t, with the numbers behind it. It is known by its address. */
  datatype Slab = Slab(s_mem: int, inuse: int, offset: int, free: int, bufctl: seq<int>)

  /** The cache of a slab, and its free objects in the order in which they will be used. */
  datatype Info = Info(cache: nat, chain: seq<int>)

  /** What SET_PAGE_CACHE and SET_PAGE_SLAB leave in the page descriptor. */
  datatype Owner = Owner(cache: nat, slab: int)

  /** An object by its number in a slab. */
  datatype Obj = Obj(slab: int, index: int)

  // ---------- one slab ----------

  function Nth(chain: seq<int>, k: nat): int {
    if k < |chain| then chain[k] else BUFCTL_END
  }

  /** The links from `free` on are just these, without a cycle. */
  ghost predicate Chain(bufctl: seq<int>, free: int, chain: seq<int>) {
    && NoDup(chain) && free == Nth(chain, 0)
    && forall k: nat :: k < |chain| ==> 0 <= chain[k] < |bufctl| && bufctl[chain[k]] == Nth(chain, k + 1)
  }

  ghost predicate SlabOk(c: Cache, sp: int, s: Slab, chain: seq<int>) {
    && |s.bufctl| == c.num && Chain(s.bufctl, s.free, chain) && s.inuse == c.num - |chain|
    && s.offset == c.offset && (s.s_mem - s.offset) % PGSIZE == 0 && (!c.off_slab ==> sp == s.s_mem - s.offset)
  }

  lemma {:induction false} NumBounded(c: Cache)
    requires Sound(c)
    ensures 1 <= c.num <= 0x40_0000
  {
    BytesBounded(c.page_order);
    MulLe(1, c.objsize, c.num);
  }

  /** kmem_cache_alloc_one takes the first free object. */
  function TakeFirst(s: Slab): Slab
    requires 0 <= s.free < |s.bufctl|
  {
    s.(inuse := s.inuse + 1, free := s.bufctl[s.free])
  }

  lemma {:induction false} TakeFirstOk(c: Cache, sp: int, s: Slab, chain: seq<int>)
    requires Sound(c) && SlabOk(c, sp, s, chain) && chain != []
    ensures s.free == chain[0] && 0 <= s.free < |s.bufctl|
    ensures SlabOk(c, sp, TakeFirst(s), chain[1..])
    ensures TakeFirst(s).free == BUFCTL_END <==> |chain| == 1
  {
    NumBounded(c);
  }

  /** kmem_cache_free_one puts an object in front. */
  function PutFirst(s: Slab, i: int): Slab
    requires 0 <= i < |s.bufctl|
  {
    s.(bufctl := s.bufctl[i := s.free], free := i, inuse := s.inuse - 1)
  }

  lemma {:induction false} PutFirstOk(c: Cache, sp: int, s: Slab, chain: seq<int>, i: int)
    requires SlabOk(c, sp, s, chain) && 0 <= i < c.num && i !in chain
    ensures SlabOk(c, sp, PutFirst(s, i), [i] + chain)
  {
    var t := [i] + chain;
    forall k: nat | k < |t|
      ensures 0 <= t[k] < |s.bufctl| && s.bufctl[i := s.free][t[k]] == Nth(t, k + 1)
    {
      if k > 0 {
        assert t[k] == chain[k - 1] && chain[k - 1] in chain;
      }
    }
  }

  /** All numbers from 0 on. */
  function AllFree(num: nat): seq<int> {
    seq(num, i => i)
  }

  /** A chain of all objects has them all. */
  lemma {:induction false} FullChain(chain: seq<int>, num: nat, i: int)
    requires NoDup(chain) && (forall k :: 0 <= k < |chain| ==> 0 <= chain[k] < num) && 0 <= i < num && i !in chain
    ensures |chain| < num
  {
    var all := Numbers(num);
    ElementsSize(chain);
    var elements := set x | x in chain;
    assert elements <= all - {i};
    SubsetSize(elements, all - {i});
  }

  ghost function Numbers(n: nat): (r: set<int>)
    ensures |r| == n && forall x :: x in r <==> 0 <= x < n
  {
    if n == 0 then {} else Numbers(n - 1) + {n - 1}
  }

  lemma {:induction false} ElementsSize(s: seq<int>)
    requires NoDup(s)
    ensures |set x | x in s| == |s|
  {
    if s != [] {
      ElementsSize(s[1..]);
      assert s[0] !in s[1..];
      assert (set x | x in s) == (set x | x in s[1..]) + {s[0]};
    } else {
      assert (set x | x in s) == {};
    }
  }

  lemma {:induction false} SubsetSize(a: set<int>, b: set<int>)
    requires a <= b
    ensures |a| <= |b|
  {
    assert b == a + (b - a);
  }

  /** In a chain of some objects one is missing. */
  lemma {:induction false} MissingObject(chain: seq<int>, num: nat) returns (i: int)
    requires NoDup(chain) && |chain| < num
    ensures 0 <= i < num && i !in chain
  {
    var all := Numbers(num);
    ElementsSize(chain);
    var elements := set x | x in chain;
    if all <= elements {
      SubsetSize(all, elements);
    }
    i :| i in all && i !in elements;
  }

  // ---------- all slabs ----------

  /** The slab `sp` and its cache. */
  ghost predicate HasSlab(caches: seq<Cache>, slabs: map<int, Slab>, info: map<int, Info>, sp: int) {
    sp in slabs && sp in info && info[sp].cache < |caches|
  }

  ghost predicate SlabsOk(caches: seq<Cache>, slabs: map<int, Slab>, info: map<int, Info>) {
    && (forall sp :: sp in slabs <==> sp in info)
    && forall sp :: sp in slabs ==>
         HasSlab(caches, slabs, info, sp) && SlabOk(caches[info[sp].cache], sp, slabs[sp], info[sp].chain)
  }

  /** page2kva and kva2page, with pages as numbers. */
  function PageOf(a: int): int {
    a / PGSIZE
  }

  function First(s: Slab): int {
    PageOf(s.s_mem - s.offset)
  }

  /** The pages of a slab. */
  ghost predicate HasPage(caches: seq<Cache>, slabs: map<int, Slab>, info: map<int, Info>, sp: int, p: int) {
    HasSlab(caches, slabs, info, sp)
    && First(slabs[sp]) <= p < First(slabs[sp]) + Blocks.Pow2(caches[info[sp].cache].page_order)
  }

  /** Just the pages of slabs are marked, with their slab; so none belongs to two of them. */
  ghost predicate PagesOk(caches: seq<Cache>, slabs: map<int, Slab>, info: map<int, Info>, pages: map<int, Owner>) {
    && (forall sp, p :: HasPage(caches, slabs, info, sp, p) ==> p in pages && pages[p] == Owner(info[sp].cache, sp))
    && (forall p :: p in pages ==> HasPage(caches, slabs, info, pages[p].slab, p))
  }

  ghost predicate IsFull(info: map<int, Info>, sp: int, c: nat) {
    sp in info && info[sp].cache == c && info[sp].chain == []
  }

  ghost predicate IsNotFull(info: map<int, Info>, sp: int, c: nat) {
    sp in info && info[sp].cache == c && info[sp].chain != []
  }

  ghost predicate ListOk(info: map<int, Info>, full: seq<int>, notfull: seq<int>, c: nat) {
    && NoDup(full) && NoDup(notfull)
    && (forall sp :: sp in full <==> IsFull(info, sp, c))
    && (forall sp :: sp in notfull <==> IsNotFull(info, sp, c))
  }

  /** slabs_full and slabs_notfull of each cache. */
  ghost predicate ListsOk(info: map<int, Info>, full: seq<seq<int>>, notfull: seq<seq<int>>, n: nat) {
    |full| == n && |notfull| == n && forall c: nat :: c < n ==> ListOk(info, full[c], notfull[c], c)
  }

  /** An object that is in use. */
  ghost predicate InUse(caches: seq<Cache>, slabs: map<int, Slab>, info: map<int, Info>, sp: int, i: int) {
    HasSlab(caches, slabs, info, sp) && 0 <= i < caches[info[sp].cache].num && i !in info[sp].chain
  }

  ghost function AddrOf(caches: seq<Cache>, slabs: map<int, Slab>, info: map<int, Info>, sp: int, i: int): int
    requires HasSlab(caches, slabs, info, sp)
  {
    slabs[sp].s_mem + i * caches[info[sp].cache].objsize
  }

  /** `used` has the objects in use by their addresses. */
  ghost predicate UsedOk(caches: seq<Cache>, slabs: map<int, Slab>, info: map<int, Info>, used: map<int, Obj>) {
    && (forall a :: a in used ==>
          InUse(caches, slabs, info, used[a].slab, used[a].index)
          && a == AddrOf(caches, slabs, info, used[a].slab, used[a].index))
    && (forall sp, i :: InUse(caches, slabs, info, sp, i) ==>
          var a := AddrOf(caches, slabs, info, sp, i); a in used && used[a] == Obj(sp, i))
  }

  /** No slab but `sp` is without an object in use. */
  ghost predicate BusyBut(caches: seq<Cache>, info: map<int, Info>, except: set<int>) {
    forall sp :: sp in info && sp !in except ==>
        info[sp].cache < |caches| && |info[sp].chain| < caches[info[sp].cache].num
  }

  /** A control structure that is an object of another slab. */
  ghost predicate IsControl(caches: seq<Cache>, info: map<int, Info>, a: int) {
    a in info && info[a].cache < |caches| && caches[info[a].cache].off_slab
  }

  ghost predicate InCache(info: map<int, Info>, used: map<int, Obj>, a: int, c: nat) {
    a in used && used[a].slab in info && info[used[a].slab].cache == c
  }

  /** Who uses the objects: callers of kmalloc, for as many bytes; slabs; and operations that are going on. */
  ghost predicate Owners(caches: seq<Cache>, info: map<int, Info>, used: map<int, Obj>, live: map<int, int>,
                         held: set<int>) {
    && (forall a :: a in used <==> a in live || a in held || IsControl(caches, info, a))
    && (forall a :: a in live ==> a !in held && !IsControl(caches, info, a))
    && (forall a :: a in held ==> !IsControl(caches, info, a))
    && (forall a :: IsControl(caches, info, a) ==> InCache(info, used, a, caches[info[a].cache].slab_cachep))
    && (forall a :: a in live ==> Room(caches, info, used, a, live[a]))
  }

  ghost predicate Room(caches: seq<Cache>, info: map<int, Info>, used: map<int, Obj>, a: int, size: int) {
    a in used && used[a].slab in info && info[used[a].slab].cache < |caches|
    && size <= caches[info[used[a].slab].cache].objsize
  }

  /** Everything but that no slab is empty. */
  ghost predicate Core(caches: seq<Cache>, slabs: map<int, Slab>, info: map<int, Info>, pages: map<int, Owner>,
                       full: seq<seq<int>>, notfull: seq<seq<int>>, used: map<int, Obj>, live: map<int, int>,
                       held: set<int>) {
    && CachesOk(caches) && SlabsOk(caches, slabs, info) && PagesOk(caches, slabs, info, pages)
    && ListsOk(info, full, notfull, |caches|) && UsedOk(caches, slabs, info, used)
    && Owners(caches, info, used, live, held)
  }

  // ---------- where objects are ----------

  /** An object lies in the pages of its slab, behind the control structure if that is there, too. */
  lemma {:induction false} ObjectInside(c: Cache, sp: int, s: Slab, chain: seq<int>, i: int)
    requires Sound(c) && SlabOk(c, sp, s, chain) && 0 <= i < c.num
    ensures PGSIZE * First(s) == s.s_mem - s.offset <= s.s_mem <= s.s_mem + i * c.objsize
    ensures s.s_mem + i * c.objsize + c.objsize <= PGSIZE * (First(s) + Blocks.Pow2(c.page_order))
    ensures (s.s_mem + i * c.objsize - s.s_mem) / c.objsize == i
  {
    MulLe(0, i, c.objsize);
    MulLe(i + 1, c.num, c.objsize);
    assert (i + 1) * c.objsize == i * c.objsize + c.objsize;
    Quotients(i, c.objsize);
    hide Chain, Blocks.Pow2;
  }

  lemma {:induction false} Quotients(i: int, d: int)
    requires d >= 1 && i >= 0
    ensures i * d / d == i
  {
    MulLe(0, i, d);
    Quotient(i * d, d);
    if i * d / d < i {
      MulLe(i * d / d + 1, i, d);
    } else if i * d / d > i {
      MulLe(i + 1, i * d / d, d);
    }
  }

  /** Two objects of a slab are apart. */
  lemma {:induction false} ObjectsApart(c: Cache, i: int, j: int, base: int)
    requires c.objsize >= 1 && i < j
    ensures base + i * c.objsize + c.objsize <= base + j * c.objsize
  {
    MulLe(i + 1, j, c.objsize);
  }

  lemma {:induction false} SlabAt(caches: seq<Cache>, slabs: map<int, Slab>, info: map<int, Info>, sp: int)
    requires CachesOk(caches) && SlabsOk(caches, slabs, info) && sp in slabs
    ensures HasSlab(caches, slabs, info, sp) && Sound(caches[info[sp].cache])
    ensures SlabOk(caches[info[sp].cache], sp, slabs[sp], info[sp].chain)
    ensures CacheOk(caches[info[sp].cache], info[sp].cache)
  {
  }

  /** The page of an object leads to its slab and its number. */
  lemma {:induction false} ObjectPage(caches: seq<Cache>, slabs: map<int, Slab>, info: map<int, Info>,
                                      pages: map<int, Owner>, sp: int, i: int)
    requires CachesOk(caches) && SlabsOk(caches, slabs, info) && PagesOk(caches, slabs, info, pages)
    requires HasSlab(caches, slabs, info, sp) && 0 <= i < caches[info[sp].cache].num
    ensures var c, a := info[sp].cache, AddrOf(caches, slabs, info, sp, i);
            && PageOf(a) in pages && pages[PageOf(a)] == Owner(c, sp) && caches[c].objsize >= 1
            && (a - slabs[sp].s_mem) / caches[c].objsize == i
  {
    hide SlabsOk, SlabOk, CachesOk, Sound, CacheOk, Blocks.Pow2;
    SlabAt(caches, slabs, info, sp);
    var c := caches[info[sp].cache];
    SoundSize(c);
    ObjectInside(c, sp, slabs[sp], info[sp].chain, i);
    assert HasPage(caches, slabs, info, sp, PageOf(AddrOf(caches, slabs, info, sp, i)));
  }

  lemma {:induction false} SoundSize(c: Cache)
    requires Sound(c)
    ensures c.objsize >= 1
  {
  }

  /** No two objects have the same address. */
  lemma {:induction false} AddrUnique(caches: seq<Cache>, slabs: map<int, Slab>, info: map<int, Info>,
                                      pages: map<int, Owner>, sp: int, i: int, sp': int, i': int)
    requires CachesOk(caches) && SlabsOk(caches, slabs, info) && PagesOk(caches, slabs, info, pages)
    requires HasSlab(caches, slabs, info, sp) && 0 <= i < caches[info[sp].cache].num
    requires HasSlab(caches, slabs, info, sp') && 0 <= i' < caches[info[sp'].cache].num
    requires AddrOf(caches, slabs, info, sp, i) == AddrOf(caches, slabs, info, sp', i')
    ensures sp == sp' && i == i'
  {
    hide SlabsOk, CachesOk, PagesOk, AddrOf;
    ObjectPage(caches, slabs, info, pages, sp, i);
    ObjectPage(caches, slabs, info, pages, sp', i');
  }

  // ---------- an object is taken or given back ----------

  /** Slab `sp` has changed, but not its place. */
  ghost predicate Changed(slabs: map<int, Slab>, info: map<int, Info>, slabs': map<int, Slab>, info': map<int, Info>,
                          sp: int) {
    && sp in slabs && sp in info && sp in slabs' && sp in info' && slabs' == slabs[sp := slabs'[sp]]
      && info' == info[sp := info'[sp]]
    && slabs'[sp].s_mem == slabs[sp].s_mem && slabs'[sp].offset == slabs[sp].offset && info'[sp].cache == info[sp].cache
  }

  lemma {:induction false} ChangedSlabs(caches: seq<Cache>, slabs: map<int, Slab>, info: map<int, Info>,
                                        slabs': map<int, Slab>, info': map<int, Info>, sp: int)
    requires SlabsOk(caches, slabs, info) && Changed(slabs, info, slabs', info', sp)
    requires HasSlab(caches, slabs, info, sp) && SlabOk(caches[info[sp].cache], sp, slabs'[sp], info'[sp].chain)
    ensures SlabsOk(caches, slabs', info')
    ensures forall q :: HasSlab(caches, slabs', info', q) <==> HasSlab(caches, slabs, info, q)
    ensures forall q, i :: HasSlab(caches, slabs, info, q) ==>
              AddrOf(caches, slabs', info', q, i) == AddrOf(caches, slabs, info, q, i)
  {
    hide SlabOk;
  }

  lemma {:induction false} ChangedPages(caches: seq<Cache>, slabs: map<int, Slab>, info: map<int, Info>,
                                        slabs': map<int, Slab>, info': map<int, Info>, pages: map<int, Owner>, sp: int)
    requires PagesOk(caches, slabs, info, pages) && Changed(slabs, info, slabs', info', sp)
    ensures PagesOk(caches, slabs', info', pages)
  {
    assert forall q, p :: HasPage(caches, slabs', info', q, p) <==> HasPage(caches, slabs, info, q, p);
  }

  /** An object leaves the chain. */
  lemma {:induction false} UsedTaken(caches: seq<Cache>, slabs: map<int, Slab>, info: map<int, Info>,
                                     slabs': map<int, Slab>, info': map<int, Info>, pages: map<int, Owner>,
                                     used: map<int, Obj>, sp: int, i: int)
    requires CachesOk(caches) && SlabsOk(caches, slabs, info) && PagesOk(caches, slabs, info, pages)
    requires UsedOk(caches, slabs, info, used) && SlabsOk(caches, slabs', info')
    requires Changed(slabs, info, slabs', info', sp) && HasSlab(caches, slabs, info, sp)
    requires 0 <= i < caches[info[sp].cache].num && i in info[sp].chain
    requires forall j :: j in info'[sp].chain <==> j in info[sp].chain && j != i
    ensures AddrOf(caches, slabs, info, sp, i) !in used
    ensures UsedOk(caches, slabs', info', used[AddrOf(caches, slabs, info, sp, i) := Obj(sp, i)])
  {
    hide CachesOk, SlabsOk, PagesOk;
    var a := AddrOf(caches, slabs, info, sp, i);
    if a in used {
      AddrUnique(caches, slabs, info, pages, sp, i, used[a].slab, used[a].index);
    }
    assert forall q, j :: InUse(caches, slabs', info', q, j) <==>
        InUse(caches, slabs, info, q, j) || (q == sp && j == i);
    assert forall q, j :: HasSlab(caches, slabs, info, q) ==>
                            AddrOf(caches, slabs', info', q, j) == AddrOf(caches, slabs, info, q, j);
  }

  /** An object goes back to the chain. */
  lemma {:induction false} UsedGiven(caches: seq<Cache>, slabs: map<int, Slab>, info: map<int, Info>,
                                     slabs': map<int, Slab>, info': map<int, Info>, used: map<int, Obj>, a: int)
    requires UsedOk(caches, slabs, info, used) && a in used
    requires var sp := used[a].slab;
             && Changed(slabs, info, slabs', info', sp)
             && forall j :: j in info'[sp].chain <==> j in info[sp].chain || j == used[a].index
    ensures UsedOk(caches, slabs', info', used - {a})
  {
    var sp, i := used[a].slab, used[a].index;
    assert forall q, j :: InUse(caches, slabs', info', q, j) <==>
        InUse(caches, slabs, info, q, j) && !(q == sp && j == i);
    assert forall q, j :: HasSlab(caches, slabs, info, q) ==>
                            AddrOf(caches, slabs', info', q, j) == AddrOf(caches, slabs, info, q, j);
  }

  lemma {:induction false} OwnersTaken(caches: seq<Cache>, slabs: map<int, Slab>, info: map<int, Info>,
                                       slabs': map<int, Slab>, info': map<int, Info>, used: map<int, Obj>,
                                       live: map<int, int>, held: set<int>, sp: int, a: int, o: Obj)
    requires Owners(caches, info, used, live, held) && Changed(slabs, info, slabs', info', sp) && a !in used
    ensures Owners(caches, info', used[a := o], live, held + {a})
  {
    var used' := used[a := o];
    assert forall b :: IsControl(caches, info', b) <==> IsControl(caches, info, b);
    assert forall b, d :: InCache(info, used, b, d) ==> InCache(info', used', b, d);
    assert forall b, n :: Room(caches, info, used, b, n) ==> Room(caches, info', used', b, n);
    hide IsControl, InCache, Room;
  }

  lemma {:induction false} OwnersGiven(caches: seq<Cache>, slabs: map<int, Slab>, info: map<int, Info>,
                                       slabs': map<int, Slab>, info': map<int, Info>, used: map<int, Obj>,
                                       live: map<int, int>, held: set<int>, sp: int, a: int)
    requires Owners(caches, info, used, live, held) && Changed(slabs, info, slabs', info', sp) && a in held
    ensures Owners(caches, info', used - {a}, live, held - {a})
  {
  }

  /** The lists of one cache change with the chain of its slab. */
  lemma {:induction false} ListsChanged(slabs: map<int, Slab>, info: map<int, Info>, slabs': map<int, Slab>,
                                        info': map<int, Info>, full: seq<seq<int>>, notfull: seq<seq<int>>, n: nat,
                                        sp: int, f: seq<int>, nf: seq<int>)
    requires ListsOk(info, full, notfull, n) && Changed(slabs, info, slabs', info', sp) && info[sp].cache < n
    requires ListOk(info', f, nf, info[sp].cache)
    ensures ListsOk(info', full[info[sp].cache := f], notfull[info[sp].cache := nf], n)
  {
    var c0 := info[sp].cache;
    forall c: nat | c < n && c != c0
      ensures ListOk(info', full[c], notfull[c], c)
    {
      assert forall q :: IsFull(info', q, c) <==> IsFull(info, q, c);
      assert forall q :: IsNotFull(info', q, c) <==> IsNotFull(info, q, c);
    }
    hide ListOk;
  }

  /** The slab has become full, or not. */
  lemma {:induction false} ListTaken(info: map<int, Info>, full: seq<int>, notfull: seq<int>, sp: int, chain: seq<int>)
    requires sp in info && ListOk(info, full, notfull, info[sp].cache) && info[sp].chain != [] && sp in notfull
    ensures chain != [] ==> ListOk(info[sp := info[sp].(chain := chain)], full, notfull, info[sp].cache)
    ensures chain == [] ==>
              ListOk(info[sp := info[sp].(chain := chain)], [sp] + full, Del(notfull, sp), info[sp].cache)
  {
    DelIs(notfull, sp);
    var info', c := info[sp := info[sp].(chain := chain)], info[sp].cache;
    assert !IsFull(info, sp, c);
    assert forall q :: q != sp ==> (IsFull(info', q, c) <==> IsFull(info, q, c));
    assert forall q :: q != sp ==> (IsNotFull(info', q, c) <==> IsNotFull(info, q, c));
    assert forall q :: q in [sp] + full <==> q == sp || q in full;
  }

  /** It is not full any more, or was not before. */
  lemma {:induction false} ListGiven(info: map<int, Info>, full: seq<int>, notfull: seq<int>, sp: int, chain: seq<int>)
    requires sp in info && ListOk(info, full, notfull, info[sp].cache) && chain != []
    ensures info[sp].chain != [] ==> ListOk(info[sp := info[sp].(chain := chain)], full, notfull, info[sp].cache)
    ensures info[sp].chain == [] ==>
              sp in full
              && ListOk(info[sp := info[sp].(chain := chain)], Del(full, sp), [sp] + notfull, info[sp].cache)
  {
    var info', c := info[sp := info[sp].(chain := chain)], info[sp].cache;
    if info[sp].chain == [] {
      assert IsFull(info, sp, c) && !IsNotFull(info, sp, c);
      DelIs(full, sp);
    }
    assert forall q :: q != sp ==> (IsFull(info', q, c) <==> IsFull(info, q, c));
    assert forall q :: q != sp ==> (IsNotFull(info', q, c) <==> IsNotFull(info, q, c));
    assert forall q :: q in [sp] + notfull <==> q == sp || q in notfull;
  }

  /** A slab on slabs_notfull has a free object. */
  lemma {:induction false} NotFullAt(caches: seq<Cache>, slabs: map<int, Slab>, info: map<int, Info>,
                                     full: seq<seq<int>>, notfull: seq<seq<int>>, c: nat, sp: int)
    requires SlabsOk(caches, slabs, info) && ListsOk(info, full, notfull, |caches|) && c < |caches| && sp in notfull[c]
    ensures HasSlab(caches, slabs, info, sp) && info[sp].cache == c && info[sp].chain != []
    ensures |full| == |notfull| == |caches| && ListOk(info, full[c], notfull[c], c)
  {
    assert ListOk(info, full[c], notfull[c], c) && IsNotFull(info, sp, c);
  }

  lemma {:induction false} BusyAfter(caches: seq<Cache>, slabs: map<int, Slab>, info: map<int, Info>,
                                     slabs': map<int, Slab>, info': map<int, Info>, sp: int)
    requires BusyBut(caches, info, {sp}) && Changed(slabs, info, slabs', info', sp) && info[sp].cache < |caches|
    requires |info'[sp].chain| < caches[info[sp].cache].num
    ensures BusyBut(caches, info', {})
  {
  }

  lemma {:induction false} ChainSmall(c: Cache, sp: int, s: Slab, chain: seq<int>)
    requires SlabOk(c, sp, s, chain)
    ensures |chain| <= c.num && NoDup(chain) && forall i :: i in chain ==> 0 <= i < c.num
  {
    ElementsSize(chain);
    var elements := set i | i in chain;
    SubsetSize(elements, Numbers(c.num));
  }

  /** kmem_cache_alloc_one. */
  lemma {:induction false} TakeStep(caches: seq<Cache>, slabs: map<int, Slab>, info: map<int, Info>,
                                    pages: map<int, Owner>, full: seq<seq<int>>, notfull: seq<seq<int>>,
                                    used: map<int, Obj>, live: map<int, int>, held: set<int>, c: nat, sp: int)
    requires Core(caches, slabs, info, pages, full, notfull, used, live, held) && BusyBut(caches, info, {sp})
    requires c < |caches| && sp in notfull[c]
    ensures HasSlab(caches, slabs, info, sp) && info[sp].cache == c && info[sp].chain != []
    ensures 0 <= slabs[sp].free < |slabs[sp].bufctl|
    ensures var a, s' := AddrOf(caches, slabs, info, sp, slabs[sp].free), TakeFirst(slabs[sp]);
            var info' := info[sp := Info(c, info[sp].chain[1..])];
            var full' := if s'.free == BUFCTL_END then full[c := [sp] + full[c]] else full;
            var notfull' := if s'.free == BUFCTL_END then notfull[c := Del(notfull[c], sp)] else notfull;
            && a !in used && BusyBut(caches, info', {})
            && Core(caches, slabs[sp := s'], info', pages, full', notfull', used[a := Obj(sp, slabs[sp].free)], live,
                    held + {a})
  {
    hide CachesOk, SlabsOk, PagesOk, UsedOk, Owners, BusyBut, Sound, SlabOk, ListOk, ListsOk, AddrOf;
    NotFullAt(caches, slabs, info, full, notfull, c, sp);
    SlabAt(caches, slabs, info, sp);
    var s, chain, i := slabs[sp], info[sp].chain, slabs[sp].free;
    TakeFirstOk(caches[c], sp, s, chain);
    TakeFirstChain(caches[c], sp, s, chain);
    var slabs', info' := slabs[sp := TakeFirst(s)], info[sp := Info(c, chain[1..])];
    var a := AddrOf(caches, slabs, info, sp, i);
    assert Changed(slabs, info, slabs', info', sp);
    ChangedSlabs(caches, slabs, info, slabs', info', sp);
    ChangedPages(caches, slabs, info, slabs', info', pages, sp);
    UsedTaken(caches, slabs, info, slabs', info', pages, used, sp, i);
    OwnersTaken(caches, slabs, info, slabs', info', used, live, held, sp, a, Obj(sp, i));
    BusyAfter(caches, slabs, info, slabs', info', sp);
    ListTaken(info, full[c], notfull[c], sp, chain[1..]);
    assert info' == info[sp := info[sp].(chain := chain[1..])];
    if |chain| == 1 {
      ListsChanged(slabs, info, slabs', info', full, notfull, |caches|, sp, [sp] + full[c], Del(notfull[c], sp));
    } else {
      ListsChanged(slabs, info, slabs', info', full, notfull, |caches|, sp, full[c], notfull[c]);
      assert full[c := full[c]] == full && notfull[c := notfull[c]] == notfull;
    }
  }

  lemma {:induction false} TakeFirstChain(c: Cache, sp: int, s: Slab, chain: seq<int>)
    requires SlabOk(c, sp, s, chain) && chain != []
    ensures 0 <= chain[0] < c.num && |chain| <= c.num
    ensures forall j :: j in chain[1..] <==> j in chain && j != chain[0]
  {
    assert chain == [chain[0]] + chain[1..];
    ChainSmall(c, sp, s, chain);
  }

  // ---------- a slab comes or goes ----------

  ghost predicate InRun(first: int, order: nat, p: int) {
    first <= p < first + Blocks.Pow2(order)
  }

  /** Pages from alloc_pages are not marked. */
  ghost predicate NewRun(pages: map<int, Owner>, first: int, order: nat) {
    forall p :: InRun(first, order, p) ==> p !in pages
  }

  /** `pages'` has the run marked, too. */
  ghost predicate Marked(pages: map<int, Owner>, pages': map<int, Owner>, first: int, order: nat, o: Owner) {
    && (forall p :: p in pages' <==> p in pages || InRun(first, order, p))
    && (forall p :: p in pages' ==> pages'[p] == if InRun(first, order, p) then o else pages[p])
  }

  /** Where the control structure of a new slab is, there is none yet. */
  lemma {:induction false} NewControl(caches: seq<Cache>, slabs: map<int, Slab>, info: map<int, Info>,
                                      pages: map<int, Owner>, first: int, order: nat)
    requires CachesOk(caches) && SlabsOk(caches, slabs, info) && PagesOk(caches, slabs, info, pages)
    requires forall a :: IsControl(caches, info, a) ==> PageOf(a) in pages
    requires NewRun(pages, first, order)
    ensures first * PGSIZE !in slabs
  {
    var a := first * PGSIZE;
    assert PageOf(a) == first && InRun(first, order, first);
    if a in slabs {
      SlabAt(caches, slabs, info, a);
      hide SlabsOk, CachesOk, Sound;
      FirstMarked(caches, slabs, info, pages, a);
    }
  }

  lemma {:induction false} FirstMarked(caches: seq<Cache>, slabs: map<int, Slab>, info: map<int, Info>,
                                       pages: map<int, Owner>, sp: int)
    requires PagesOk(caches, slabs, info, pages) && HasSlab(caches, slabs, info, sp)
    ensures First(slabs[sp]) in pages
  {
    assert HasPage(caches, slabs, info, sp, First(slabs[sp]));
  }

  /** Objects in use are in marked pages, and so are control structures. */
  lemma {:induction false} UsedPage(caches: seq<Cache>, slabs: map<int, Slab>, info: map<int, Info>,
                                    pages: map<int, Owner>, used: map<int, Obj>, a: int)
    requires CachesOk(caches) && SlabsOk(caches, slabs, info) && PagesOk(caches, slabs, info, pages)
    requires UsedOk(caches, slabs, info, used) && a in used
    ensures PageOf(a) in pages
  {
    hide SlabsOk, CachesOk, PagesOk;
    ObjectPage(caches, slabs, info, pages, used[a].slab, used[a].index);
  }

  /** An object is not where a slab begins that has its control structure there. */
  lemma {:induction false} HeldNotSlab(caches: seq<Cache>, slabs: map<int, Slab>, info: map<int, Info>,
                                       pages: map<int, Owner>, used: map<int, Obj>, a: int)
    requires CachesOk(caches) && SlabsOk(caches, slabs, info) && PagesOk(caches, slabs, info, pages)
    requires UsedOk(caches, slabs, info, used) && a in used && !IsControl(caches, info, a)
    ensures a !in slabs
  {
    if a in slabs {
      SlabAt(caches, slabs, info, a);
      hide SlabsOk, CachesOk;
      var o := used[a];
      ObjectPage(caches, slabs, info, pages, o.slab, o.index);
      assert HasPage(caches, slabs, info, a, First(slabs[a]));
      ObjectInside(caches[info[a].cache], a, slabs[a], info[a].chain, o.index);
    }
  }

  /** A new slab `sp` with all objects free. */
  ghost predicate Added(slabs: map<int, Slab>, info: map<int, Info>, slabs': map<int, Slab>, info': map<int, Info>,
                        sp: int, c: nat, num: int) {
    && sp !in slabs && sp in slabs' && sp in info' && slabs' == slabs[sp := slabs'[sp]]
      && info' == info[sp := info'[sp]]
    && info'[sp].cache == c && num >= 0 && info'[sp].chain == AllFree(num)
  }

  lemma {:induction false} AddedSlabs(caches: seq<Cache>, slabs: map<int, Slab>, info: map<int, Info>,
                                      slabs': map<int, Slab>, info': map<int, Info>, sp: int, c: nat)
    requires SlabsOk(caches, slabs, info) && c < |caches|
    requires Added(slabs, info, slabs', info', sp, c, caches[c].num)
    requires SlabOk(caches[c], sp, slabs'[sp], info'[sp].chain)
    ensures SlabsOk(caches, slabs', info')
  {
    hide SlabOk;
  }

  lemma {:induction false} AddedPages(caches: seq<Cache>, slabs: map<int, Slab>, info: map<int, Info>,
                                      slabs': map<int, Slab>, info': map<int, Info>, pages: map<int, Owner>,
                                      pages': map<int, Owner>, sp: int, c: nat)
    requires SlabsOk(caches, slabs, info) && PagesOk(caches, slabs, info, pages) && c < |caches|
    requires Added(slabs, info, slabs', info', sp, c, caches[c].num)
    requires NewRun(pages, First(slabs'[sp]), caches[c].page_order)
    requires Marked(pages, pages', First(slabs'[sp]), caches[c].page_order, Owner(c, sp))
    ensures PagesOk(caches, slabs', info', pages')
  {
    hide SlabOk, First;
    assert forall q, p :: HasPage(caches, slabs', info', q, p) <==>
                            if q == sp then InRun(First(slabs'[sp]), caches[c].page_order, p)
                            else HasPage(caches, slabs, info, q, p);
  }

  lemma {:induction false} AddedUsed(caches: seq<Cache>, slabs: map<int, Slab>, info: map<int, Info>,
                                     slabs': map<int, Slab>, info': map<int, Info>, used: map<int, Obj>, sp: int,
                                       c: nat)
    requires SlabsOk(caches, slabs, info) && UsedOk(caches, slabs, info, used) && c < |caches|
    requires Added(slabs, info, slabs', info', sp, c, caches[c].num)
    ensures UsedOk(caches, slabs', info', used)
  {
    forall j | 0 <= j < caches[c].num
      ensures j in AllFree(caches[c].num)
    {
      assert AllFree(caches[c].num)[j] == j;
    }
    hide AllFree;
    assert forall q, j :: InUse(caches, slabs', info', q, j) <==> InUse(caches, slabs, info, q, j);
    assert forall q, j :: HasSlab(caches, slabs, info, q) ==>
                            AddrOf(caches, slabs', info', q, j) == AddrOf(caches, slabs, info, q, j);
    hide SlabsOk;
  }

  lemma {:induction false} AddedLists(slabs: map<int, Slab>, info: map<int, Info>, slabs': map<int, Slab>,
                                      info': map<int, Info>, full: seq<seq<int>>, notfull: seq<seq<int>>, n: nat,
                                      sp: int, c: nat, num: int)
    requires ListsOk(info, full, notfull, n) && c < n && num >= 1
    requires sp !in info && Added(slabs, info, slabs', info', sp, c, num)
    ensures ListsOk(info', full, notfull[c := [sp] + notfull[c]], n)
  {
    forall d: nat | d < n
      ensures ListOk(info', full[d], notfull[c := [sp] + notfull[c]][d], d)
    {
      assert ListOk(info, full[d], notfull[d], d);
      assert forall q :: IsFull(info', q, d) <==> IsFull(info, q, d);
      assert forall q :: IsNotFull(info', q, d) <==> IsNotFull(info, q, d) || (q == sp && d == c);
      assert !IsNotFull(info, sp, d);
    }
  }

  /** The object that a caller holds becomes the control structure, if that is outside. */
  lemma {:induction false} AddedOwners(caches: seq<Cache>, slabs: map<int, Slab>, info: map<int, Info>,
                                       slabs': map<int, Slab>, info': map<int, Info>, used: map<int, Obj>,
                                       live: map<int, int>, held: set<int>, sp: int, c: nat)
    requires c < |caches| && Owners(caches, info, used, live, held) && sp !in info
    requires (forall a :: a in used ==> used[a].slab in info)
    requires Added(slabs, info, slabs', info', sp, c, caches[c].num)
    requires caches[c].off_slab ==> sp in held && InCache(info, used, sp, caches[c].slab_cachep)
    ensures Owners(caches, info', used, live, if caches[c].off_slab then held - {sp} else held)
  {
    assert forall a :: IsControl(caches, info', a) <==> IsControl(caches, info, a) || (a == sp && caches[c].off_slab);
    assert forall a, d :: InCache(info, used, a, d) ==> InCache(info', used, a, d);
    assert forall a, n :: Room(caches, info, used, a, n) ==> Room(caches, info', used, a, n);
    hide IsControl, InCache, Room;
  }

  ghost predicate Removed(slabs: map<int, Slab>, info: map<int, Info>, slabs': map<int, Slab>, info': map<int, Info>,
                          sp: int) {
    sp in slabs && sp in info && slabs' == slabs - {sp} && info' == info - {sp}
  }

  lemma {:induction false} RemovedSlabs(caches: seq<Cache>, slabs: map<int, Slab>, info: map<int, Info>,
                                        slabs': map<int, Slab>, info': map<int, Info>, sp: int)
    requires SlabsOk(caches, slabs, info) && Removed(slabs, info, slabs', info', sp)
    ensures SlabsOk(caches, slabs', info')
  {
    hide SlabOk;
  }

  lemma {:induction false} RemovedPages(caches: seq<Cache>, slabs: map<int, Slab>, info: map<int, Info>,
                                        slabs': map<int, Slab>, info': map<int, Info>, pages: map<int, Owner>,
                                        pages': map<int, Owner>, sp: int)
    requires PagesOk(caches, slabs, info, pages) && Removed(slabs, info, slabs', info', sp)
    requires HasSlab(caches, slabs, info, sp)
    requires forall p :: p in pages' <==>
               p in pages && !InRun(First(slabs[sp]), caches[info[sp].cache].page_order, p)
    requires forall p :: p in pages' ==> pages'[p] == pages[p]
    ensures PagesOk(caches, slabs', info', pages')
  {
    hide First;
    assert forall p :: HasPage(caches, slabs, info, sp, p) <==>
                         InRun(First(slabs[sp]), caches[info[sp].cache].page_order, p);
    assert forall q, p :: HasPage(caches, slabs', info', q, p) <==> q != sp && HasPage(caches, slabs, info, q, p);
  }

  lemma {:induction false} RemovedUsed(caches: seq<Cache>, slabs: map<int, Slab>, info: map<int, Info>,
                                       slabs': map<int, Slab>, info': map<int, Info>, used: map<int, Obj>, sp: int)
    requires SlabsOk(caches, slabs, info) && UsedOk(caches, slabs, info, used)
    requires Removed(slabs, info, slabs', info', sp)
    requires HasSlab(caches, slabs, info, sp) && |info[sp].chain| == caches[info[sp].cache].num
    ensures UsedOk(caches, slabs', info', used)
    ensures forall a :: a in used ==> used[a].slab != sp
  {
    forall i
      ensures !InUse(caches, slabs, info, sp, i)
    {
      if InUse(caches, slabs, info, sp, i) {
        FullChain(info[sp].chain, caches[info[sp].cache].num, i);
      }
    }
    hide SlabsOk;
    assert forall q, j :: InUse(caches, slabs', info', q, j) <==> InUse(caches, slabs, info, q, j);
    assert forall q, j :: HasSlab(caches, slabs', info', q) ==>
                            AddrOf(caches, slabs', info', q, j) == AddrOf(caches, slabs, info, q, j);
  }

  lemma {:induction false} RemovedLists(slabs: map<int, Slab>, info: map<int, Info>, slabs': map<int, Slab>,
                                        info': map<int, Info>, full: seq<seq<int>>, notfull: seq<seq<int>>, n: nat,
                                        sp: int)
    requires ListsOk(info, full, notfull, n) && Removed(slabs, info, slabs', info', sp) && info[sp].cache < n
    ensures var c := info[sp].cache;
            if info[sp].chain == [] then sp in full[c] && ListsOk(info', full[c := Del(full[c], sp)], notfull, n)
            else sp in notfull[c] && ListsOk(info', full, notfull[c := Del(notfull[c], sp)], n)
  {
    var c := info[sp].cache;
    assert ListOk(info, full[c], notfull[c], c);
    if info[sp].chain == [] {
      assert IsFull(info, sp, c) && !IsNotFull(info, sp, c);
      DelIs(full[c], sp);
    } else {
      assert IsNotFull(info, sp, c) && !IsFull(info, sp, c);
      DelIs(notfull[c], sp);
    }
    forall d: nat | d < n && d != c
      ensures ListOk(info', full[d], notfull[d], d)
    {
      assert ListOk(info, full[d], notfull[d], d);
      assert forall q :: IsFull(info', q, d) <==> IsFull(info, q, d);
      assert forall q :: IsNotFull(info', q, d) <==> IsNotFull(info, q, d);
    }
    assert forall q :: IsFull(info', q, c) <==> q != sp && IsFull(info, q, c);
    assert forall q :: IsNotFull(info', q, c) <==> q != sp && IsNotFull(info, q, c);
  }

  /** Its control structure, if that was outside, is in hand again. */
  lemma {:induction false} RemovedOwners(caches: seq<Cache>, slabs: map<int, Slab>, info: map<int, Info>,
                                         slabs': map<int, Slab>, info': map<int, Info>, used: map<int, Obj>,
                                         live: map<int, int>, held: set<int>, sp: int)
    requires Owners(caches, info, used, live, held) && Removed(slabs, info, slabs', info', sp)
    requires forall a :: a in used ==> used[a].slab != sp
    ensures Owners(caches, info', used, live, if IsControl(caches, info, sp) then held + {sp} else held)
  {
  }

  /** The end of kmem_cache_grow. */
  lemma {:induction false} AddStep(caches: seq<Cache>, slabs: map<int, Slab>, info: map<int, Info>,
                                   pages: map<int, Owner>, full: seq<seq<int>>, notfull: seq<seq<int>>,
                                   used: map<int, Obj>, live: map<int, int>, held: set<int>, c: nat, sp: int, s: Slab,
                                   pages': map<int, Owner>)
    requires Core(caches, slabs, info, pages, full, notfull, used, live, held) && BusyBut(caches, info, {})
    requires c < |caches| && caches[c].num >= 1 && SlabOk(caches[c], sp, s, AllFree(caches[c].num))
    requires NewRun(pages, First(s), caches[c].page_order)
    requires Marked(pages, pages', First(s), caches[c].page_order, Owner(c, sp))
    requires caches[c].off_slab ==> sp in held && InCache(info, used, sp, caches[c].slab_cachep)
    requires !caches[c].off_slab ==> sp == First(s) * PGSIZE
    ensures var info' := info[sp := Info(c, AllFree(caches[c].num))];
            && |notfull| == |caches| && BusyBut(caches, info', {sp})
            && Core(caches, slabs[sp := s], info', pages', full, notfull[c := [sp] + notfull[c]], used, live,
                    if caches[c].off_slab then held - {sp} else held)
  {
    hide CachesOk, SlabsOk, PagesOk, UsedOk, Sound, SlabOk, ListsOk, AllFree, First, NewRun, Marked, InCache;
    HeldUsed(caches, info, used, live, held);
    hide Owners;
    if caches[c].off_slab {
      HeldNotSlab(caches, slabs, info, pages, used, sp);
    } else {
      forall a | IsControl(caches, info, a)
        ensures PageOf(a) in pages
      {
        UsedPage(caches, slabs, info, pages, used, a);
      }
      NewControl(caches, slabs, info, pages, First(s), caches[c].page_order);
    }
    var slabs', info' := slabs[sp := s], info[sp := Info(c, AllFree(caches[c].num))];
    NotIn(caches, slabs, info, used, sp);
    ListsSize(info, full, notfull, |caches|);
    AddedSlabs(caches, slabs, info, slabs', info', sp, c);
    AddedPages(caches, slabs, info, slabs', info', pages, pages', sp, c);
    AddedUsed(caches, slabs, info, slabs', info', used, sp, c);
    AddedLists(slabs, info, slabs', info', full, notfull, |caches|, sp, c, caches[c].num);
    AddedOwners(caches, slabs, info, slabs', info', used, live, held, sp, c);
  }

  lemma {:induction false} HeldUsed(caches: seq<Cache>, info: map<int, Info>, used: map<int, Obj>, live: map<int, int>,
                                    held: set<int>)
    requires Owners(caches, info, used, live, held)
    ensures forall a :: a in held ==> a in used && !IsControl(caches, info, a)
    ensures forall a :: IsControl(caches, info, a) ==> a in used
  {
  }

  lemma {:induction false} NotIn(caches: seq<Cache>, slabs: map<int, Slab>, info: map<int, Info>, used: map<int, Obj>,
                                 sp: int)
    requires SlabsOk(caches, slabs, info) && UsedOk(caches, slabs, info, used) && sp !in slabs
    ensures sp !in info && forall a :: a in used ==> used[a].slab in info
  {
  }

  lemma {:induction false} ListsSize(info: map<int, Info>, full: seq<seq<int>>, notfull: seq<seq<int>>, n: nat)
    requires ListsOk(info, full, notfull, n)
    ensures |full| == |notfull| == n
  {
  }

  /** The object `a` in its slab, as kmem_cache_free finds it. */
  lemma {:induction false} FoundAt(caches: seq<Cache>, slabs: map<int, Slab>, info: map<int, Info>,
                                   pages: map<int, Owner>, used: map<int, Obj>, a: int)
    requires CachesOk(caches) && SlabsOk(caches, slabs, info) && PagesOk(caches, slabs, info, pages)
    requires UsedOk(caches, slabs, info, used) && a in used
    ensures var sp, i := used[a].slab, used[a].index;
            && HasSlab(caches, slabs, info, sp) && i !in info[sp].chain && 0 <= i < caches[info[sp].cache].num
            && |slabs[sp].bufctl| == caches[info[sp].cache].num
            && slabs[sp].inuse == caches[info[sp].cache].num - |info[sp].chain| >= 1
            && SlabOk(caches[info[sp].cache], sp, slabs[sp], info[sp].chain)
            && PageOf(a) in pages && pages[PageOf(a)] == Owner(info[sp].cache, sp)
            && caches[info[sp].cache].objsize >= 1 && (a - slabs[sp].s_mem) / caches[info[sp].cache].objsize == i
  {
    var sp, i := used[a].slab, used[a].index;
    SlabAt(caches, slabs, info, sp);
    ObjectPage(caches, slabs, info, pages, sp, i);
    hide SlabsOk, CachesOk, PagesOk;
    FullChain(info[sp].chain, caches[info[sp].cache].num, i);
  }

  /** kmem_cache_free_one, when the slab keeps other objects. */
  lemma {:induction false} KeepStep(caches: seq<Cache>, slabs: map<int, Slab>, info: map<int, Info>,
                                    pages: map<int, Owner>, full: seq<seq<int>>, notfull: seq<seq<int>>,
                                    used: map<int, Obj>, live: map<int, int>, held: set<int>, a: int)
    requires Core(caches, slabs, info, pages, full, notfull, used, live, held) && BusyBut(caches, info, {})
    requires a in held && a in used && HasSlab(caches, slabs, info, used[a].slab)
    requires 0 <= used[a].index < |slabs[used[a].slab].bufctl| && slabs[used[a].slab].inuse > 1
    ensures var sp, i, c := used[a].slab, used[a].index, info[used[a].slab].cache;
            var info', moved := info[sp := Info(c, [i] + info[sp].chain)], slabs[sp].inuse == caches[c].num;
            && |full| == |notfull| == |caches| && (moved ==> sp in full[c]) && BusyBut(caches, info', {})
            && Core(caches, slabs[sp := PutFirst(slabs[sp], i)], info', pages,
                    if moved then full[c := Del(full[c], sp)] else full,
                    if moved then notfull[c := [sp] + notfull[c]] else notfull, used - {a}, live, held - {a})
  {
    hide CachesOk, SlabsOk, PagesOk, UsedOk, Owners, Sound, SlabOk, ListsOk, ListOk;
    FoundAt(caches, slabs, info, pages, used, a);
    var sp, i, c := used[a].slab, used[a].index, info[used[a].slab].cache;
    var chain := info[sp].chain;
    var slabs', info' := slabs[sp := PutFirst(slabs[sp], i)], info[sp := Info(c, [i] + chain)];
    PutFirstOk(caches[c], sp, slabs[sp], chain, i);
    assert Changed(slabs, info, slabs', info', sp);
    ChangedSlabs(caches, slabs, info, slabs', info', sp);
    ChangedPages(caches, slabs, info, slabs', info', pages, sp);
    UsedGiven(caches, slabs, info, slabs', info', used, a);
    OwnersGiven(caches, slabs, info, slabs', info', used, live, held, sp, a);
    ListsSize(info, full, notfull, |caches|);
    ListOf(info, full, notfull, |caches|, c);
    ListGiven(info, full[c], notfull[c], sp, [i] + chain);
    assert info' == info[sp := info[sp].(chain := [i] + chain)];
    if chain == [] {
      ListsChanged(slabs, info, slabs', info', full, notfull, |caches|, sp, Del(full[c], sp), [sp] + notfull[c]);
    } else {
      ListsChanged(slabs, info, slabs', info', full, notfull, |caches|, sp, full[c], notfull[c]);
      assert full[c := full[c]] == full && notfull[c := notfull[c]] == notfull;
    }
  }

  lemma {:induction false} ListOf(info: map<int, Info>, full: seq<seq<int>>, notfull: seq<seq<int>>, n: nat, c: nat)
    requires ListsOk(info, full, notfull, n) && c < n
    ensures ListOk(info, full[c], notfull[c], c)
  {
  }

  lemma {:induction false} ListHas(info: map<int, Info>, full: seq<int>, notfull: seq<int>, c: nat, sp: int)
    requires ListOk(info, full, notfull, c) && sp in info && info[sp].cache == c
    ensures (sp in full <==> info[sp].chain == []) && (sp in notfull <==> info[sp].chain != [])
  {
    assert IsFull(info, sp, c) <==> info[sp].chain == [];
  }

  lemma {:induction false} ControlStays(caches: seq<Cache>, info: map<int, Info>, used: map<int, Obj>,
                                        live: map<int, int>, held: set<int>, sp: int, a: int)
    requires Owners(caches, info, used, live, held) && IsControl(caches, info, sp) && a in held
    requires forall b :: b in used - {a} ==> used[b].slab != sp
    ensures sp !in held && InCache(info - {sp}, used - {a}, sp, caches[info[sp].cache].slab_cachep)
  {
    assert InCache(info, used, sp, caches[info[sp].cache].slab_cachep);
  }

  /** The same with the last object: the slab goes, and its control structure is given back, too, if it is outside. */
  lemma {:induction false} DropStep(caches: seq<Cache>, slabs: map<int, Slab>, info: map<int, Info>,
                                    pages: map<int, Owner>, full: seq<seq<int>>, notfull: seq<seq<int>>,
                                    used: map<int, Obj>, live: map<int, int>, held: set<int>, a: int,
                                    pages': map<int, Owner>)
    requires Core(caches, slabs, info, pages, full, notfull, used, live, held) && BusyBut(caches, info, {})
    requires a in held && a in used && HasSlab(caches, slabs, info, used[a].slab) && slabs[used[a].slab].inuse == 1
    requires forall p :: p in pages' <==>
               p in pages && !InRun(First(slabs[used[a].slab]), caches[info[used[a].slab].cache].page_order, p)
    requires forall p :: p in pages' ==> pages'[p] == pages[p]
    ensures var sp, c := used[a].slab, info[used[a].slab].cache;
            var was := info[sp].chain == [];
            && |full| == |notfull| == |caches| && (sp in full[c] <==> was) && (sp in notfull[c] <==> !was)
            && BusyBut(caches, info - {sp}, {})
            && (caches[c].off_slab ==> sp !in held && InCache(info - {sp}, used - {a}, sp, caches[c].slab_cachep))
            && Core(caches, slabs - {sp}, info - {sp}, pages', if was then full[c := Del(full[c], sp)] else full,
                    if was then notfull else notfull[c := Del(notfull[c], sp)], used - {a}, live,
                    if caches[c].off_slab then held - {a} + {sp} else held - {a})
  {
    hide CachesOk, SlabsOk, PagesOk, UsedOk, Owners, Sound, SlabOk, ListsOk, ListOk, First;
    FoundAt(caches, slabs, info, pages, used, a);
    var sp, i, c := used[a].slab, used[a].index, info[used[a].slab].cache;
    var chain := info[sp].chain;
    var slabs', info' := slabs[sp := PutFirst(slabs[sp], i)], info[sp := Info(c, [i] + chain)];
    PutFirstOk(caches[c], sp, slabs[sp], chain, i);
    assert Changed(slabs, info, slabs', info', sp);
    ChangedSlabs(caches, slabs, info, slabs', info', sp);
    UsedGiven(caches, slabs, info, slabs', info', used, a);
    OwnersGiven(caches, slabs, info, slabs', info', used, live, held, sp, a);
    assert slabs' - {sp} == slabs - {sp} && info' - {sp} == info - {sp};
    RemovedSlabs(caches, slabs', info', slabs - {sp}, info - {sp}, sp);
    RemovedPages(caches, slabs, info, slabs - {sp}, info - {sp}, pages, pages', sp);
    RemovedUsed(caches, slabs', info', slabs - {sp}, info - {sp}, used - {a}, sp);
    RemovedOwners(caches, slabs', info', slabs - {sp}, info - {sp}, used - {a}, live, held - {a}, sp);
    ListsSize(info, full, notfull, |caches|);
    ListOf(info, full, notfull, |caches|, c);
    ListHas(info, full[c], notfull[c], c, sp);
    if caches[c].off_slab {
      ControlStays(caches, info, used, live, held, sp, a);
    }
    RemovedLists(slabs, info, slabs - {sp}, info - {sp}, full, notfull, |caches|, sp);
  }

  // ---------- what this is for ----------

  /** Where the control structure of a slab ends. */
  ghost function ControlEnd(caches: seq<Cache>, info: map<int, Info>, sp: int): int
    requires sp in info && info[sp].cache < |caches|
  {
    sp + SLAB_SIZE + caches[info[sp].cache].num * BUFCTL_SIZE
  }

  /** Objects in use do not overlap. */
  lemma {:induction false} UsedApart(caches: seq<Cache>, slabs: map<int, Slab>, info: map<int, Info>,
                                     pages: map<int, Owner>, used: map<int, Obj>, a: int, b: int, n: int, m: int)
    requires CachesOk(caches) && SlabsOk(caches, slabs, info) && PagesOk(caches, slabs, info, pages)
    requires UsedOk(caches, slabs, info, used) && a in used && b in used && a != b
    requires Room(caches, info, used, a, n) && Room(caches, info, used, b, m)
    ensures a + n <= b || b + m <= a
  {
    var o, o' := used[a], used[b];
    SlabAt(caches, slabs, info, o.slab);
    SlabAt(caches, slabs, info, o'.slab);
    hide SlabsOk, CachesOk, SlabOk, CacheOk, Blocks.Pow2;
    SoundSize(caches[info[o.slab].cache]);
    SoundSize(caches[info[o'.slab].cache]);
    if o.slab == o'.slab {
      if o.index < o'.index {
        ObjectsApart(caches[info[o.slab].cache], o.index, o'.index, slabs[o.slab].s_mem);
      } else {
        ObjectsApart(caches[info[o.slab].cache], o'.index, o.index, slabs[o.slab].s_mem);
      }
    } else {
      ObjectInside(caches[info[o.slab].cache], o.slab, slabs[o.slab], info[o.slab].chain, o.index);
      ObjectInside(caches[info[o'.slab].cache], o'.slab, slabs[o'.slab], info[o'.slab].chain, o'.index);
      SlabsApart(caches, slabs, info, pages, o.slab, o'.slab);
    }
  }

  lemma {:induction false} SlabsApart(caches: seq<Cache>, slabs: map<int, Slab>, info: map<int, Info>,
                                      pages: map<int, Owner>, sp: int, sp': int)
    requires PagesOk(caches, slabs, info, pages) && sp != sp'
    requires HasSlab(caches, slabs, info, sp) && HasSlab(caches, slabs, info, sp')
    ensures var n, n' := Blocks.Pow2(caches[info[sp].cache].page_order),
            Blocks.Pow2(caches[info[sp'].cache].page_order);
            First(slabs[sp]) + n <= First(slabs[sp']) || First(slabs[sp']) + n' <= First(slabs[sp])
  {
    hide Blocks.Pow2;
    var f, f' := First(slabs[sp]), First(slabs[sp']);
    var p := if f < f' then f' else f;
    assert HasPage(caches, slabs, info, sp, p) ==> !HasPage(caches, slabs, info, sp', p);
  }

  /** A control structure is where no other object in use is. */
  lemma {:induction false} ControlApart(caches: seq<Cache>, slabs: map<int, Slab>, info: map<int, Info>,
                                        pages: map<int, Owner>, used: map<int, Obj>, a: int, n: int, sp: int)
    requires CachesOk(caches) && SlabsOk(caches, slabs, info) && PagesOk(caches, slabs, info, pages)
    requires UsedOk(caches, slabs, info, used) && a in used && Room(caches, info, used, a, n)
    requires HasSlab(caches, slabs, info, sp)
    requires IsControl(caches, info, sp) ==> a != sp && InCache(info, used, sp, caches[info[sp].cache].slab_cachep)
    ensures a + n <= sp || ControlEnd(caches, info, sp) <= a
  {
    var o, c := used[a], info[sp].cache;
    SlabAt(caches, slabs, info, sp);
    SlabAt(caches, slabs, info, o.slab);
    if IsControl(caches, info, sp) {
      SlabAt(caches, slabs, info, used[sp].slab);
      UsedApart(caches, slabs, info, pages, used, a, sp, n, SLAB_SIZE + caches[c].num * BUFCTL_SIZE);
    } else {
      hide SlabsOk, CachesOk, CacheOk, Blocks.Pow2;
      ObjectInside(caches[c], sp, slabs[sp], info[sp].chain, 0);
      ObjectInside(caches[info[o.slab].cache], o.slab, slabs[o.slab], info[o.slab].chain, o.index);
      if o.slab != sp {
        SlabsApart(caches, slabs, info, pages, o.slab, sp);
      }
    }
  }

  /** Two control structures do not overlap, inside their slabs or not. */
  lemma {:induction false} ControlsApart(caches: seq<Cache>, slabs: map<int, Slab>, info: map<int, Info>,
                                         pages: map<int, Owner>, used: map<int, Obj>, live: map<int, int>, sp: int,
                                         sp': int)
    requires CachesOk(caches) && SlabsOk(caches, slabs, info) && PagesOk(caches, slabs, info, pages)
    requires UsedOk(caches, slabs, info, used) && Owners(caches, info, used, live, {})
    requires sp in slabs && sp' in slabs && sp != sp'
    ensures HasSlab(caches, slabs, info, sp) && HasSlab(caches, slabs, info, sp')
    ensures ControlEnd(caches, info, sp) <= sp' || ControlEnd(caches, info, sp') <= sp
  {
    SlabAt(caches, slabs, info, sp);
    SlabAt(caches, slabs, info, sp');
    if IsControl(caches, info, sp') {
      ControlSize(caches, slabs, info, used, live, sp');
      ControlApart(caches, slabs, info, pages, used, sp', ControlEnd(caches, info, sp') - sp', sp);
    } else if IsControl(caches, info, sp) {
      ControlSize(caches, slabs, info, used, live, sp);
      ControlApart(caches, slabs, info, pages, used, sp, ControlEnd(caches, info, sp) - sp, sp');
    } else {
      hide SlabsOk, CachesOk, UsedOk, Owners, CacheOk, Blocks.Pow2;
      ObjectInside(caches[info[sp].cache], sp, slabs[sp], info[sp].chain, 0);
      ObjectInside(caches[info[sp'].cache], sp', slabs[sp'], info[sp'].chain, 0);
      SlabsApart(caches, slabs, info, pages, sp, sp');
    }
  }

  lemma {:induction false} ControlSize(caches: seq<Cache>, slabs: map<int, Slab>, info: map<int, Info>,
                                       used: map<int, Obj>, live: map<int, int>, sp: int)
    requires CachesOk(caches) && SlabsOk(caches, slabs, info) && UsedOk(caches, slabs, info, used)
    requires Owners(caches, info, used, live, {}) && sp in slabs && IsControl(caches, info, sp)
    ensures Room(caches, info, used, sp, ControlEnd(caches, info, sp) - sp)
    ensures InCache(info, used, sp, caches[info[sp].cache].slab_cachep)
  {
    SlabAt(caches, slabs, info, sp);
    SlabAt(caches, slabs, info, used[sp].slab);
  }

  /** When nobody uses an object, no page is kept. */
  lemma {:induction false} NothingKept(caches: seq<Cache>, slabs: map<int, Slab>, info: map<int, Info>,
                                       pages: map<int, Owner>, used: map<int, Obj>, live: map<int, int>)
    requires CachesOk(caches) && SlabsOk(caches, slabs, info) && PagesOk(caches, slabs, info, pages)
    requires UsedOk(caches, slabs, info, used) && Owners(caches, info, used, live, {})
    requires BusyBut(caches, info, {}) && live == map[]
    ensures forall p :: p !in pages
  {
    hide CachesOk, SlabsOk, UsedOk, Owners, BusyBut;
    forall p | p in pages
      ensures false
    {
      var sp := pages[p].slab;
      var a := SomeControl(caches, slabs, info, used, live, sp);
      var b := SomeControl(caches, slabs, info, used, live, a);
      OnSlab(caches, slabs, info, used, live, a, b);
    }
  }

  /** A slab has an object in use, here only by another slab. */
  lemma {:induction false} SomeControl(caches: seq<Cache>, slabs: map<int, Slab>, info: map<int, Info>,
                                       used: map<int, Obj>, live: map<int, int>, sp: int) returns (a: int)
    requires CachesOk(caches) && SlabsOk(caches, slabs, info) && UsedOk(caches, slabs, info, used)
    requires Owners(caches, info, used, live, {}) && BusyBut(caches, info, {}) && live == map[]
    requires sp in info
    ensures IsControl(caches, info, a) && InCache(info, used, a, info[sp].cache)
  {
    SlabAt(caches, slabs, info, sp);
    hide SlabsOk, CachesOk, Sound;
    var i := MissingObject(info[sp].chain, caches[info[sp].cache].num);
    assert InUse(caches, slabs, info, sp, i);
    a := AddrOf(caches, slabs, info, sp, i);
  }

  lemma {:induction false} OnSlab(caches: seq<Cache>, slabs: map<int, Slab>, info: map<int, Info>,
                                  used: map<int, Obj>, live: map<int, int>, a: int, b: int)
    requires CachesOk(caches) && Owners(caches, info, used, live, {})
    requires IsControl(caches, info, a) && IsControl(caches, info, b)
    ensures !InCache(info, used, b, info[a].cache)
  {
    var c := caches[info[b].cache];
    assert CacheOk(c, info[b].cache);
    assert CacheOk(caches[info[a].cache], info[a].cache);
  }
}
