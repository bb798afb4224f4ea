/**
 How a slab is divided into objects (kern/mm/slab.c): a control structure with one number for each object, and the
 objects.
 */
module SlabSizes {
  import opened Defs
  import opened Lists
  import Blocks

  const MIN_SIZE_ORDER: nat := 5
  const MAX_SIZE_ORDER: nat := 17
  const SLAB_CACHE_NUM: nat := 13
  const KMALLOC_MAX_ORDER: nat := 10
  const SLAB_LIMIT: int := 0xFFFF_FFFE
  /** sizeof(slab_t) and sizeof(kmem_bufctl_t). */
  const SLAB_SIZE: int := 24
  const BUFCTL_SIZE: int := 4

  /** The sizes of a slab cache. */
  datatype Cache = Cache(objsize: int, num: int, offset: int, off_slab: bool, page_order: nat, slab_cachep: nat)

  function Bytes(order: nat): (r: int)
    ensures r >= PGSIZE
  {
    PGSIZE * Blocks.Pow2(order)
  }

  function RoundUp(a: int, n: int): (r: int)
    requires n >= 1
    ensures a <= r < a + n && r == n * (r / n)
  {
    assert (a + n - 1) - (a + n - 1) % n == n * ((a + n - 1) / n);
    TimesOver((a + n - 1) / n, n);
    (a + n - 1) - (a + n - 1) % n
  }

  lemma {:induction false} TimesOver(q: int, n: int)
    requires n >= 1
    ensures n * q / n == q
  {
    var p := n * q / n;
    assert 0 <= n * q - n * p < n;
    assert n * (q - p) == n * q - n * p;
    NotBelow(n, q - p);
  }

  lemma {:induction false} NotBelow(n: int, k: int)
    requires n >= 1
    ensures k == 0 || n * k >= n || n * k <= -n
  {
    if k >= 1 {
      assert n * k >= n;
    } else if k <= -1 {
      assert n * k <= -n;
    }
  }

  /** slab_mgmt_size. */
  function MgmtSize(num: int, align: int): int
    requires align >= 1
  {
    RoundUp(SLAB_SIZE + num * BUFCTL_SIZE, align)
  }

  /** The control structure and that many objects fit into a slab. */
  predicate Fit(bytes: int, objsize: int, align: int, num: int)
    requires align >= 1
  {
    MgmtSize(num, align) + num * objsize <= bytes
  }

  /** As many as possible. */
  predicate Most(bytes: int, objsize: int, align: int, off_slab: bool, num: int)
    requires align >= 1
  {
    num >= 0 &&
    if off_slab then num * objsize <= bytes < (num + 1) * objsize
    else Fit(bytes, objsize, align, num) && !Fit(bytes, objsize, align, num + 1)
  }

  lemma {:induction false} MulLe(a: int, b: int, c: int)
    requires a <= b && c >= 0
    ensures a * c <= b * c
  {
  }

  lemma {:induction false} LowerQuotient(x: int, y: int, n: int)
    requires n >= 1 && x / n < y / n
    ensures x < y
  {
    MulLe(x / n + 1, y / n, n);
    assert (x / n + 1) * n == x / n * n + n;
  }

  lemma {:induction false} RoundUpMonotonic(a: int, b: int, n: int)
    requires n >= 1 && a <= b
    ensures RoundUp(a, n) <= RoundUp(b, n)
  {
    var x, y := a + n - 1, b + n - 1;
    if y / n < x / n {
      LowerQuotient(y, x, n);
    } else {
      MulLe(x / n, y / n, n);
    }
  }

  lemma {:induction false} FitFewer(bytes: int, objsize: int, align: int, m: int, n: int)
    requires align >= 1 && objsize >= 1 && m <= n && Fit(bytes, objsize, align, n)
    ensures Fit(bytes, objsize, align, m)
  {
    hide RoundUp;
    RoundUpMonotonic(SLAB_SIZE + m * BUFCTL_SIZE, SLAB_SIZE + n * BUFCTL_SIZE, align);
    MulLe(m, n, objsize);
  }

  /** Any other number that is the largest is the same. */
  lemma {:induction false} MostUnique(bytes: int, objsize: int, align: int, off_slab: bool, m: int, n: int)
    requires align >= 1 && objsize >= 1
    requires Most(bytes, objsize, align, off_slab, m) && Most(bytes, objsize, align, off_slab, n)
    ensures m == n
  {
    NotMore(bytes, objsize, align, off_slab, m, n);
    NotMore(bytes, objsize, align, off_slab, n, m);
  }

  lemma {:induction false} NotMore(bytes: int, objsize: int, align: int, off_slab: bool, m: int, n: int)
    requires align >= 1 && objsize >= 1 && Most(bytes, objsize, align, off_slab, m) && n >= 0
    requires if off_slab then n * objsize <= bytes else Fit(bytes, objsize, align, n)
    ensures n <= m
  {
    hide RoundUp;
    if !off_slab {
      if n > m {
        FitFewer(bytes, objsize, align, m + 1, n);
      }
    } else if n > m {
      MulLe(m + 1, n, objsize);
    }
  }

  /** Where the search begins, at least one more does not fit. */
  lemma {:induction false} StartsAbove(bytes: int, objsize: int, align: int, n: int)
    requires align >= 1 && objsize >= 1 && n == (bytes - SLAB_SIZE) / (objsize + BUFCTL_SIZE)
    ensures !Fit(bytes, objsize, align, n + 1)
  {
    var d := objsize + BUFCTL_SIZE;
    assert bytes - SLAB_SIZE == d * n + (bytes - SLAB_SIZE) % d;
    assert (n + 1) * d == (n + 1) * objsize + (n + 1) * BUFCTL_SIZE == d * n + d;
  }

  lemma {:induction false} NoneFits(bytes: int, objsize: int, align: int)
    requires 1 <= align <= PGSIZE <= bytes
    ensures Fit(bytes, objsize, align, 0)
  {
    if align >= SLAB_SIZE {
      assert (SLAB_SIZE + align - 1) % align == SLAB_SIZE - 1;
    }
  }

  /** What is left of the slab. */
  function Remainder(bytes: int, objsize: int, align: int, off_slab: bool, num: int): int
    requires align >= 1
  {
    bytes - num * objsize - if off_slab then 0 else MgmtSize(num, align)
  }

  /** cache_estimate. */
  method CacheEstimate(order: nat, objsize: int, align: int, off_slab: bool) returns (remainder: int, num: int)
    requires order <= KMALLOC_MAX_ORDER && objsize >= 1 && 1 <= align <= PGSIZE
    ensures Most(Bytes(order), objsize, align, off_slab, num)
    ensures remainder == Remainder(Bytes(order), objsize, align, off_slab, num) >= 0
  {
    hide Bytes;
    var slab_size := Bytes(order);
    BytesBounded(order);
    var mgmt_size;
    if off_slab {
      mgmt_size := 0;
      num := slab_size / objsize;
      OffSlabMost(slab_size, objsize, align);
      if num > SLAB_LIMIT {
        num := SLAB_LIMIT;
      }
    } else {
      num := (slab_size - SLAB_SIZE) / (objsize + BUFCTL_SIZE);
      StartsAbove(slab_size, objsize, align, num);
      StartBounded(slab_size, objsize);
      NoneFits(slab_size, objsize, align);
      while MgmtSize(num, align) + num * objsize > slab_size
        invariant 0 <= num <= slab_size
        invariant !Fit(slab_size, objsize, align, num + 1)
        decreases num
      {
        num := num - 1;
      }
      if num > SLAB_LIMIT {
        num := SLAB_LIMIT;
      }
      mgmt_size := MgmtSize(num, align);
    }
    remainder := slab_size - num * objsize - mgmt_size;
  }

  lemma {:induction false} HigherPow(k: nat, j: nat)
    requires k <= j
    ensures Blocks.Pow2(k) <= Blocks.Pow2(j)
    decreases j
  {
    if k < j {
      HigherPow(k, j - 1);
    }
  }

  lemma {:induction false} BytesBounded(order: nat)
    requires order <= KMALLOC_MAX_ORDER
    ensures PGSIZE <= Bytes(order) <= 0x40_0000
  {
    HigherPow(order, KMALLOC_MAX_ORDER);
    assert Blocks.Pow2(2) == 4 && Blocks.Pow2(4) == 16 && Blocks.Pow2(6) == 64 && Blocks.Pow2(8) == 256;
  }

  lemma {:induction false} OffSlabMost(bytes: int, objsize: int, align: int)
    requires objsize >= 1 && bytes >= 0 && align >= 1
    ensures 0 <= bytes / objsize <= bytes && Most(bytes, objsize, align, true, bytes / objsize)
  {
    Quotient(bytes, objsize);
  }

  lemma {:induction false} Quotient(a: int, d: int)
    requires d >= 1 && a >= 0
    ensures 0 <= a / d <= a && a / d * d <= a < (a / d + 1) * d
  {
    MulLe(1, d, a / d);
  }

  lemma {:induction false} StartBounded(bytes: int, objsize: int)
    requires objsize >= 1 && bytes >= SLAB_SIZE
    ensures 0 <= (bytes - SLAB_SIZE) / (objsize + BUFCTL_SIZE) <= bytes
  {
    Quotient(bytes - SLAB_SIZE, objsize + BUFCTL_SIZE);
  }

  // ---------- the order of a slab ----------

  /** off_slab_limit: the numbers for the objects must fit into one object beside the control structure. */
  predicate TooMany(objsize: int, off_slab: bool, num: int) {
    num != 0 && off_slab && num > (objsize - SLAB_SIZE) / BUFCTL_SIZE
  }

  /** No object, or more than an eighth would be wasted. */
  predicate Wasteful(order: nat, objsize: int, align: int, off_slab: bool, num: int)
    requires align >= 1
  {
    num == 0 || Remainder(Bytes(order), objsize, align, off_slab, num) * 8 > Bytes(order)
  }

  /** No order below this one is taken. */
  ghost predicate NoneBelow(order: nat, objsize: int, align: int, off_slab: bool)
    requires align >= 1
  {
    forall o: nat, n :: o < order && Most(Bytes(o), objsize, align, off_slab, n) ==>
      !TooMany(objsize, off_slab, n) && Wasteful(o, objsize, align, off_slab, n)
  }

  datatype Layout = Layout(num: int, page_order: nat, left_over: int)

  /** The sizes of the objects of the caches. */
  function StandardSize(i: nat): (r: int)
    ensures r >= 1
  {
    Blocks.Pow2(MIN_SIZE_ORDER + i)
  }

  /** What calculate_slab_order decides. */
  ghost predicate Chosen(objsize: int, align: int, off_slab: bool, r: Option<Layout>)
    requires align >= 1
  {
    match r
    case Some(l) =>
      && l.page_order <= KMALLOC_MAX_ORDER && Most(Bytes(l.page_order), objsize, align, off_slab, l.num)
      && NoneBelow(l.page_order, objsize, align, off_slab)
      && !TooMany(objsize, off_slab, l.num) && !Wasteful(l.page_order, objsize, align, off_slab, l.num)
      && l.left_over == Remainder(Bytes(l.page_order), objsize, align, off_slab, l.num) >= 0
    case None =>
      || NoneBelow(KMALLOC_MAX_ORDER + 1, objsize, align, off_slab)
      || exists o: nat, n :: Panics(o, objsize, align, off_slab, n)
  }

  ghost predicate Panics(o: nat, objsize: int, align: int, off_slab: bool, n: int)
    requires align >= 1
  {
    && o <= KMALLOC_MAX_ORDER && Most(Bytes(o), objsize, align, off_slab, n)
    && TooMany(objsize, off_slab, n) && NoneBelow(o, objsize, align, off_slab)
  }

  /** calculate_slab_order: the first order that does not waste too much; None where it panics. */
  method CalculateSlabOrder(objsize: int, align: int, off_slab: bool) returns (r: Option<Layout>)
    requires objsize >= 1 && 1 <= align <= PGSIZE && (off_slab ==> objsize >= SLAB_SIZE)
    ensures Chosen(objsize, align, off_slab, r)
  {
    hide Bytes, Most, Remainder;
    for order := 0 to KMALLOC_MAX_ORDER + 1
      invariant NoneBelow(order, objsize, align, off_slab)
    {
      var remainder, num := CacheEstimate(order, objsize, align, off_slab);
      if num != 0 {
        if off_slab {
          var off_slab_limit := objsize - SLAB_SIZE;
          off_slab_limit := off_slab_limit / BUFCTL_SIZE;
          if num > off_slab_limit {
            assert Panics(order, objsize, align, off_slab, num);
            return None;
          }
        }
        if remainder * 8 <= Bytes(order) {
          return Some(Layout(num, order, remainder));
        }
      }
      OneMore(order, objsize, align, off_slab, num);
    }
    return None;
  }

  lemma {:induction false} OneMore(order: nat, objsize: int, align: int, off_slab: bool, num: int)
    requires objsize >= 1 && align >= 1 && NoneBelow(order, objsize, align, off_slab)
    requires Most(Bytes(order), objsize, align, off_slab, num)
    requires !TooMany(objsize, off_slab, num) && Wasteful(order, objsize, align, off_slab, num)
    ensures NoneBelow(order + 1, objsize, align, off_slab)
  {
    hide Bytes, Most, Wasteful, TooMany;
    forall n | Most(Bytes(order), objsize, align, off_slab, n)
      ensures n == num
    {
      MostUnique(Bytes(order), objsize, align, off_slab, n, num);
    }
  }

  /** getorder: the first order with room for `n` bytes; None where it panics. */
  method GetOrder(n: int) returns (r: Option<nat>)
    ensures r.Some? ==> MIN_SIZE_ORDER <= r.value <= MAX_SIZE_ORDER && n <= Blocks.Pow2(r.value)
    ensures r.Some? ==> r.value == MIN_SIZE_ORDER || n > Blocks.Pow2(r.value - 1)
    ensures r == None ==> n > Blocks.Pow2(MAX_SIZE_ORDER)
  {
    var order, order_size := MIN_SIZE_ORDER, 32;
    assert Blocks.Pow2(5) == 32;
    while order <= MAX_SIZE_ORDER
      invariant MIN_SIZE_ORDER <= order <= MAX_SIZE_ORDER + 1 && order_size == Blocks.Pow2(order)
      invariant order == MIN_SIZE_ORDER || n > Blocks.Pow2(order - 1)
    {
      if n <= order_size {
        return Some(order);
      }
      order, order_size := order + 1, 2 * order_size;
    }
    return None;
  }

  /** The objects fit behind the control structure, or that is an object of another cache. */
  predicate Sound(c: Cache) {
    && c.objsize >= 1 && c.num >= 1 && c.offset >= 0 && c.page_order <= KMALLOC_MAX_ORDER
    && c.offset + c.num * c.objsize <= Bytes(c.page_order)
    && (if c.off_slab then SLAB_SIZE + c.num * BUFCTL_SIZE <= StandardSize(c.slab_cachep)
        else SLAB_SIZE + c.num * BUFCTL_SIZE <= c.offset)
  }

  // ---------- the caches that there are ----------

  /** The order and the number of objects for the standard size `i`. */
  function StandardOrder(i: nat): nat {
    if i < 7 then 0 else i - 7
  }

  function StandardNum(i: nat): int {
    if i == 0 then 113 else if i == 1 then 59 else if i == 2 then 30 else if i == 3 then 15
    else if i == 4 then 8 else if i == 5 then 4 else if i == 6 then 2 else 1
  }

  lemma {:induction false} Pow12(k: nat)
    ensures Blocks.Pow2(12 + k) == PGSIZE * Blocks.Pow2(k)
  {
    if k == 0 {
      SmallPows();
    } else {
      Pow12(k - 1);
    }
  }

  lemma {:induction false} SmallPows()
    ensures Blocks.Pow2(0) == 1 && Blocks.Pow2(5) == 32 && Blocks.Pow2(6) == 64 && Blocks.Pow2(7) == 128
    ensures Blocks.Pow2(8) == 256 && Blocks.Pow2(9) == 512 && Blocks.Pow2(10) == 1024 && Blocks.Pow2(11) == 2048
    ensures Blocks.Pow2(12) == 4096
  {
    assert Blocks.Pow2(2) == 4;
    assert Blocks.Pow2(4) == 16;
  }

  lemma {:induction false} SameSize(i: nat)
    requires i < SLAB_CACHE_NUM
    ensures RoundUp(StandardSize(i), 16) == StandardSize(i)
    ensures StandardSize(i) >= PGSIZE / 8 <==> i >= 4
  {
    SmallPows();
    if i >= 7 {
      Pow12(i - 7);
    }
  }

  /** What fits: objects in each slab, at most an eighth of it wasted, and no panic. */
  lemma {:induction false} StandardFits(i: nat, off_slab: bool)
    requires i < SLAB_CACHE_NUM && off_slab == (i >= 4)
    ensures var o, n, size := StandardOrder(i), StandardNum(i), StandardSize(i);
            && o <= KMALLOC_MAX_ORDER && Most(Bytes(o), size, 16, off_slab, n)
            && !TooMany(size, off_slab, n) && !Wasteful(o, size, 16, off_slab, n)
  {
    SmallPows();
    if i >= 7 {
      Pow12(i - 7);
    }
  }

  /** In a smaller slab there is no room. */
  lemma {:induction false} NoRoom(i: nat, o: nat, n: int)
    requires i < SLAB_CACHE_NUM && o < StandardOrder(i) && Most(Bytes(o), StandardSize(i), 16, true, n)
    ensures n == 0
  {
    Pow12(i - 7);
    assert Blocks.Pow2(o + 1) == 2 * Blocks.Pow2(o);
    HigherPow(o + 1, i - 7);
    MostUnique(Bytes(o), StandardSize(i), 16, true, n, 0);
  }

  /** So this is where the search ends. */
  lemma {:induction false} EndsAt(i: nat, off_slab: bool, o: nat, n: int)
    requires i < SLAB_CACHE_NUM && off_slab == (i >= 4) && Most(Bytes(o), StandardSize(i), 16, off_slab, n)
    requires NoneBelow(o, StandardSize(i), 16, off_slab)
    requires TooMany(StandardSize(i), off_slab, n)
             || !Wasteful(o, StandardSize(i), 16, off_slab, n)
    ensures o == StandardOrder(i) && n == StandardNum(i)
  {
    StandardFits(i, off_slab);
    hide Most, Bytes, StandardOrder, StandardNum;
    if o < StandardOrder(i) {
      NoRoom(i, o, n);
    } else if o == StandardOrder(i) {
      MostUnique(Bytes(o), StandardSize(i), 16, off_slab, n, StandardNum(i));
    }
  }

  lemma {:induction false} Standard(i: nat, off_slab: bool, r: Option<Layout>)
    requires i < SLAB_CACHE_NUM && off_slab == (i >= 4) && Chosen(StandardSize(i), 16, off_slab, r)
    ensures r.Some? && (off_slab ==> MgmtSize(r.value.num, 16) <= 64)
  {
    hide Most, Bytes, Wasteful, TooMany, NoneBelow, MgmtSize, StandardNum;
    if r.Some? {
      EndsAt(i, off_slab, r.value.page_order, r.value.num);
      if off_slab {
        StandardControl(i);
      }
    } else {
      NoPanic(i, off_slab);
    }
  }

  lemma {:induction false} StandardControl(i: nat)
    requires 4 <= i < SLAB_CACHE_NUM
    ensures MgmtSize(StandardNum(i), 16) <= 64
  {
    RoundUpMonotonic(SLAB_SIZE + StandardNum(i) * BUFCTL_SIZE, SLAB_SIZE + 8 * BUFCTL_SIZE, 16);
    assert RoundUp(56, 16) == 64;
  }

  lemma {:induction false} NoPanic(i: nat, off_slab: bool)
    requires i < SLAB_CACHE_NUM && off_slab == (i >= 4)
    ensures !NoneBelow(KMALLOC_MAX_ORDER + 1, StandardSize(i), 16, off_slab)
    ensures forall o: nat, n :: !Panics(o, StandardSize(i), 16, off_slab, n)
  {
    hide Most, Bytes, Wasteful, TooMany, StandardNum;
    StandardFits(i, off_slab);
    forall o: nat, n | Panics(o, StandardSize(i), 16, off_slab, n)
      ensures false
    {
      EndsAt(i, off_slab, o, n);
    }
  }

  /** init_kmem_cache, without the empty lists. */
  method InitKmemCache(size: int, align: int) returns (r: Option<Cache>)
    requires size >= 1 && 1 <= align <= PGSIZE
    ensures r.Some? ==> Sound(r.value) && r.value.objsize == RoundUp(size, align)
    ensures forall i: nat :: i < SLAB_CACHE_NUM && size == StandardSize(i) && align == 16 ==>
              r.Some? && r.value.objsize == size && (r.value.off_slab ==> i >= 4 && r.value.slab_cachep < 4)
  {
    hide Bytes, RoundUp, NoneBelow, TooMany, Wasteful, Most, Fit, Remainder, MgmtSize, Sound;
    var objsize := RoundUp(size, align);
    var off_slab := objsize >= PGSIZE / 8;
    var l := CalculateSlabOrder(objsize, align, off_slab);
    forall i: nat | i < SLAB_CACHE_NUM && size == StandardSize(i) && align == 16
      ensures objsize == size && l.Some? && off_slab == (i >= 4) && (off_slab ==> MgmtSize(l.value.num, align) <= 64)
    {
      SameSize(i);
      Standard(i, off_slab, l);
    }
    if l == None {
      return None;
    }
    var num := l.value.num;
    ChosenSound(objsize, align, off_slab, l.value);
    var mgmt_size := MgmtSize(num, align);
    if off_slab && l.value.left_over >= mgmt_size {
      off_slab := false;
    }
    if off_slab {
      var order := GetOrder(mgmt_size);
      if order == None {
        SmallControl(MAX_SIZE_ORDER + 1, mgmt_size);
        return None;
      }
      SmallControl(order.value, mgmt_size);
      assert mgmt_size <= StandardSize(order.value - MIN_SIZE_ORDER);
      r := Some(Cache(objsize, num, 0, true, l.value.page_order, order.value - MIN_SIZE_ORDER));
    } else {
      r := Some(Cache(objsize, num, mgmt_size, false, l.value.page_order, 0));
    }
  }

  /** With the control structure inside or outside, the objects fit. */
  lemma {:induction false} ChosenSound(objsize: int, align: int, off_slab: bool, l: Layout)
    requires objsize >= 1 && align >= 1 && Chosen(objsize, align, off_slab, Some(l))
    ensures l.num > 0
    ensures !off_slab || l.left_over >= MgmtSize(l.num, align) ==>
        Sound(Cache(objsize, l.num, MgmtSize(l.num, align), false, l.page_order, 0))
    ensures off_slab ==> forall c: nat :: MgmtSize(l.num, align) <= StandardSize(c) ==>
        Sound(Cache(objsize, l.num, 0, true, l.page_order, c))
  {
    hide Bytes, NoneBelow, TooMany;
  }

  /** It goes into objects of 32 or 64 bytes. */
  lemma {:induction false} SmallControl(order: nat, size: int)
    requires order >= MIN_SIZE_ORDER && (order == MIN_SIZE_ORDER || size > Blocks.Pow2(order - 1))
    ensures size <= 64 ==> order <= 6
  {
    if order >= 7 {
      SmallPows();
      HigherPow(6, order - 1);
    }
  }

  /**
   A cache of standard size; control structures of other slabs are objects of caches that keep their own ones in the
   slab.
   */
  ghost predicate CacheOk(c: Cache, i: nat) {
    && Sound(c) && c.objsize == StandardSize(i)
    && (c.off_slab ==> i >= 4 && c.slab_cachep < 4)
  }

  /** The caches for objects of 32 bytes to 128 kilobytes. */
  ghost predicate CachesOk(caches: seq<Cache>) {
    |caches| == SLAB_CACHE_NUM && forall i :: 0 <= i < |caches| ==> CacheOk(caches[i], i)
  }

  /** slab_init: it does not panic. */
  method SlabInit() returns (caches: seq<Cache>)
    ensures CachesOk(caches)
  {
    hide StandardSize, Sound;
    caches := [];
    for i := 0 to SLAB_CACHE_NUM
      invariant |caches| == i
      invariant forall j :: 0 <= j < i ==> CacheOk(caches[j], j)
    {
      var c := InitKmemCache(StandardSize(i), 16);
      caches := caches + [c.value];
    }
  }
}
