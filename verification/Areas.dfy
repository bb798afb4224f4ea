/**
 The memory areas of an address space as values: ordered, disjoint, non-empty intervals with flags.
 What an operation of kern/mm/vmm.c does to an address space is stated with `Flags`, the flags with
 which an address is mapped, if it is.
 */
module Areas {
  import opened Defs
  import opened Lists

  datatype Area = Area(start: int, end: int, flags: bv32) {
    predicate Holds(x: int) {
      start <= x < end
    }
  }

  /** `check_vma_overlap` for every pair. */
  ghost predicate Ordered(s: seq<Area>) {
    && (forall i :: 0 <= i < |s| ==> s[i].start < s[i].end)
    && forall i, j :: 0 <= i < j < |s| ==> s[i].end <= s[j].start
  }

  /** The flags with which `x` is mapped. */
  function Flags(s: seq<Area>, x: int): Option<bv32> {
    if s == [] then None
    else if s[0].Holds(x) then Some(s[0].flags)
    else Flags(s[1..], x)
  }

  lemma {:induction false} FlagsConcat(a: seq<Area>, b: seq<Area>, x: int)
    ensures Flags(a + b, x) == if Flags(a, x).Some? then Flags(a, x) else Flags(b, x)
  {
    if a == [] {
      assert a + b == b;
    } else {
      assert (a + b)[1..] == a[1..] + b;
      FlagsConcat(a[1..], b, x);
    }
  }

  lemma {:induction false} FlagsConcat3(a: seq<Area>, b: seq<Area>, c: seq<Area>, x: int)
    ensures Flags(a + b + c, x) == if Flags(a, x).Some? then Flags(a, x)
                                   else if Flags(b, x).Some? then Flags(b, x) else Flags(c, x)
  {
    FlagsConcat(a + b, c, x);
    FlagsConcat(a, b, x);
  }

  lemma {:induction false} FlagsNone(s: seq<Area>, x: int)
    requires forall i :: 0 <= i < |s| ==> !s[i].Holds(x)
    ensures Flags(s, x) == None
  {
    if s != [] {
      FlagsNone(s[1..], x);
    }
  }

  lemma {:induction false} FlagsSome(s: seq<Area>, i: nat, x: int)
    requires Ordered(s) && i < |s| && s[i].Holds(x)
    ensures Flags(s, x) == Some(s[i].flags)
  {
    if i > 0 {
      assert s[0].end <= s[i].start;
      FlagsSome(s[1..], i - 1, x);
    }
  }

  /** The first area that ends behind `x` is what find_vma is after: `k` is its index, or the length. */
  ghost predicate FirstEndingAfter(s: seq<Area>, x: int, k: nat) {
    && k <= |s|
    && (forall i :: 0 <= i < k ==> s[i].end <= x)
    && (forall i :: k <= i < |s| ==> x < s[i].end)
  }

  /** The place of a new area `a` that overlaps none of `s`. */
  ghost predicate Place(s: seq<Area>, a: Area, k: nat) {
    && k <= |s|
    && (forall i :: 0 <= i < k ==> s[i].end <= a.start)
    && (forall i :: k <= i < |s| ==> a.end <= s[i].start)
  }

  lemma {:induction false} PlaceOrdered(s: seq<Area>, a: Area, k: nat)
    requires Ordered(s) && a.start < a.end && Place(s, a, k)
    ensures Ordered(s[..k] + [a] + s[k..])
  {
    var t := s[..k] + [a] + s[k..];
    forall i, j | 0 <= i < j < |t|
      ensures t[i].end <= t[j].start
    {
      assert t[i] == (if i < k then s[i] else if i == k then a else s[i - 1]);
      assert t[j] == (if j < k then s[j] else if j == k then a else s[j - 1]);
    }
  }

  lemma {:induction false} LessOrdered(s: seq<Area>, k: nat)
    requires Ordered(s) && k < |s|
    ensures Ordered(s[..k] + s[k + 1..])
  {
    var t := s[..k] + s[k + 1..];
    forall i, j | 0 <= i < j < |t|
      ensures t[i].end <= t[j].start
    {
      assert t[i] == s[if i < k then i else i + 1];
      assert t[j] == s[if j < k then j else j + 1];
    }
  }

  /** An area added in its place maps its addresses, and nothing else changes. */
  lemma {:induction false} FlagsPlaced(s: seq<Area>, a: Area, k: nat, x: int)
    requires Ordered(s) && a.start < a.end && Place(s, a, k)
    ensures Flags(s[..k] + [a] + s[k..], x) == if a.Holds(x) then Some(a.flags) else Flags(s, x)
  {
    PlaceOrdered(s, a, k);
    FlagsConcat3(s[..k], [a], s[k..], x);
    FlagsConcat(s[..k], s[k..], x);
    assert s == s[..k] + s[k..];
    if a.Holds(x) {
      FlagsNone(s[..k], x);
    }
  }

  lemma {:induction false} ResizedOrdered(s: seq<Area>, k: nat, start: int, end: int)
    requires Ordered(s) && k < |s| && s[k].start <= start < end <= s[k].end
    ensures Ordered(s[k := s[k].(start := start, end := end)])
  {
  }

  /** What is cut off at the front of an area can be added in front of it. */
  lemma {:induction false} SplitPlace(s: seq<Area>, k: nat, start: int, end: int)
    requires Ordered(s) && k < |s| && s[k].start < start < end < s[k].end
    ensures var t := s[k := s[k].(start := end)];
            && Ordered(t) && Place(t, s[k].(end := start), k) && t[..k] == s[..k] && t[k..] == [t[k]] + s[k + 1..]
  {
    ResizedOrdered(s, k, end, s[k].end);
  }

  ghost predicate Unmapped(s: seq<Area>, start: int, end: int) {
    forall x :: start <= x < end ==> Flags(s, x) == None
  }

  /** The first area that ends behind `start` tells whether any overlaps [start, end). */
  lemma {:induction false} FreeAtFirst(s: seq<Area>, start: int, end: int, flags: bv32, k: nat)
    requires Ordered(s) && FirstEndingAfter(s, start, k) && start < end
    ensures Unmapped(s, start, end) <==> (k == |s| || end <= s[k].start)
    ensures Unmapped(s, start, end) ==> Place(s, Area(start, end, flags), k)
  {
    if k < |s| && s[k].start < end {
      var x := if s[k].start < start then start else s[k].start;
      assert s[k].start < s[k].end;
      FlagsSome(s, k, x);
    } else {
      forall x | start <= x < end
        ensures Flags(s, x) == None
      {
        assert forall i :: k <= i < |s| ==> end <= s[k].start <= s[i].start;
        FlagsNone(s, x);
      }
    }
  }

  // ---------- cutting an interval out ----------

  /** What is left of the areas in `mid` when [s, e) is cut out, none of them reaching out on both sides. */
  function Trim(mid: seq<Area>, s: int, e: int): seq<Area> {
    if mid == [] then []
    else
      var a := mid[0];
      (if a.start < s then [a.(end := s)] else if e < a.end then [a.(start := e)] else []) + Trim(mid[1..], s, e)
  }

  lemma {:induction false} TrimConcat(a: seq<Area>, b: seq<Area>, s: int, e: int)
    ensures Trim(a + b, s, e) == Trim(a, s, e) + Trim(b, s, e)
  {
    if a == [] {
      assert a + b == b;
    } else {
      assert (a + b)[1..] == a[1..] + b;
      TrimConcat(a[1..], b, s, e);
    }
  }

  /** All areas of `mid` meet [s, e), and none of them reaches out on both sides. */
  ghost predicate Meets(mid: seq<Area>, s: int, e: int) {
    forall i :: 0 <= i < |mid| ==> s < mid[i].end && mid[i].start < e && (s <= mid[i].start || mid[i].end <= e)
  }

  lemma {:induction false} FlagsTrim(mid: seq<Area>, s: int, e: int, x: int)
    requires Meets(mid, s, e) && s < e && Ordered(mid)
    ensures Flags(Trim(mid, s, e), x) == if s <= x < e then None else Flags(mid, x)
  {
    if mid != [] {
      var a := mid[0];
      var piece := if a.start < s then [a.(end := s)] else if e < a.end then [a.(start := e)] else [];
      FlagsTrim(mid[1..], s, e, x);
      FlagsConcat(piece, Trim(mid[1..], s, e), x);
    }
  }

  /** Exact subtraction: cutting [s, e) out of the areas between `pre` and `post` unmaps just that interval. */
  lemma {:induction false} FlagsCut(pre: seq<Area>, mid: seq<Area>, post: seq<Area>, s: int, e: int, x: int)
    requires Ordered(pre + mid + post) && Meets(mid, s, e) && s < e
    requires forall i :: 0 <= i < |pre| ==> pre[i].end <= s
    requires forall i :: 0 <= i < |post| ==> e <= post[i].start
    ensures Flags(pre + Trim(mid, s, e) + post, x) == if s <= x < e then None else Flags(pre + mid + post, x)
  {
    assert forall i :: 0 <= i < |mid| ==> (pre + mid + post)[|pre| + i] == mid[i];
    assert forall i :: 0 <= i < |post| ==> (pre + mid + post)[|pre| + |mid| + i] == post[i];
    FlagsTrim(mid, s, e, x);
    FlagsConcat3(pre, mid, post, x);
    FlagsConcat3(pre, Trim(mid, s, e), post, x);
    if s <= x < e {
      FlagsNone(pre, x);
      FlagsNone(post, x);
    }
  }

  /** The same for an area that reaches out on both sides: it falls into two. */
  lemma {:induction false} FlagsSplit(pre: seq<Area>, a: Area, post: seq<Area>, s: int, e: int, x: int)
    requires Ordered(pre + [a] + post) && a.start < s < e < a.end
    ensures Flags(pre + [a.(end := s)] + ([a.(start := e)] + post), x)
         == if s <= x < e then None else Flags(pre + [a] + post, x)
  {
    var l, r := a.(end := s), a.(start := e);
    FlagsConcat3(pre, [a], post, x);
    FlagsConcat3(pre, [l], [r] + post, x);
    FlagsConcat([r], post, x);
    FlagsOne(a, x);
    FlagsOne(l, x);
    FlagsOne(r, x);
    if s <= x < e {
      var whole := pre + [a] + post;
      assert whole[|pre|] == a;
      assert forall i :: 0 <= i < |pre| ==> whole[i] == pre[i];
      assert forall i :: 0 <= i < |post| ==> whole[|pre| + 1 + i] == post[i];
      FlagsNone(pre, x);
      FlagsNone(post, x);
    }
  }

  lemma {:induction false} FlagsOne(a: Area, x: int)
    ensures Flags([a], x) == if a.Holds(x) then Some(a.flags) else None
  {
  }

  /** The part of [s, e) that an area covers. */
  function Clip(a: Area, s: int, e: int): (int, int) {
    (if a.start < s then s else a.start, if e < a.end then e else a.end)
  }

  /** These parts for all areas, the last area first. */
  function Clips(mid: seq<Area>, s: int, e: int): seq<(int, int)> {
    if mid == [] then [] else Clips(mid[1..], s, e) + [Clip(mid[0], s, e)]
  }

  ghost predicate Covers(ranges: seq<(int, int)>, x: int) {
    exists i :: 0 <= i < |ranges| && ranges[i].0 <= x < ranges[i].1
  }

  /** Together the parts are just what is mapped. */
  lemma {:induction false} ClipsCover(mid: seq<Area>, s: int, e: int, x: int)
    ensures Covers(Clips(mid, s, e), x) <==> s <= x < e && Flags(mid, x).Some?
  {
    if mid != [] {
      var rest, all := Clips(mid[1..], s, e), Clips(mid, s, e);
      ClipsCover(mid[1..], s, e, x);
      assert all[|rest|] == Clip(mid[0], s, e);
      if Covers(rest, x) {
        var i :| 0 <= i < |rest| && rest[i].0 <= x < rest[i].1;
        assert all[i] == rest[i];
      }
    }
  }

  /** The same, within the whole address space. */
  lemma {:induction false} ClipsCoverAll(pre: seq<Area>, mid: seq<Area>, post: seq<Area>, s: int, e: int, x: int)
    requires forall i :: 0 <= i < |pre| ==> pre[i].end <= s
    requires forall i :: 0 <= i < |post| ==> e <= post[i].start
    ensures Covers(Clips(mid, s, e), x) <==> s <= x < e && Flags(pre + mid + post, x).Some?
  {
    ClipsCover(mid, s, e, x);
    FlagsConcat3(pre, mid, post, x);
    if s <= x < e {
      FlagsNone(pre, x);
      FlagsNone(post, x);
    }
  }

  lemma {:induction false} TrimWithin(mid: seq<Area>, s: int, e: int, lo: int)
    requires forall i :: 0 <= i < |mid| ==> lo <= mid[i].start < e
    ensures forall i :: 0 <= i < |Trim(mid, s, e)| ==> lo <= Trim(mid, s, e)[i].start
  {
    if mid != [] {
      TrimWithin(mid[1..], s, e, lo);
    }
  }

  /** The area at `j` still fits between what precedes and what is left of those behind it. */
  lemma {:induction false} TrimPlace(pre: seq<Area>, mid: seq<Area>, post: seq<Area>, s: int, e: int, j: nat)
    requires Ordered(pre + mid + post) && j < |mid| && Meets(mid, s, e)
    ensures Place(pre + Trim(mid[j + 1..], s, e) + post, mid[j], |pre|)
  {
    var all, tail := pre + mid + post, mid[j + 1..];
    assert all[|pre| + j] == mid[j];
    forall i | 0 <= i < |pre|
      ensures pre[i].end <= mid[j].start
    {
      assert all[i] == pre[i];
    }
    forall i | 0 <= i < |tail|
      ensures mid[j].end <= tail[i].start < e
    {
      assert all[|pre| + j + 1 + i] == tail[i];
    }
    forall i | 0 <= i < |post|
      ensures mid[j].end <= post[i].start
    {
      assert all[|pre| + |mid| + i] == post[i];
    }
    TrimWithin(tail, s, e, mid[j].end);
  }

  /** The three cases of what is left of one area, which fits where the area was. */
  lemma {:induction false} TrimOne(s: seq<Area>, a: Area, start: int, end: int, k: nat)
    requires Place(s, a, k) && Meets([a], start, end)
    ensures a.start < start ==> Trim([a], start, end) == [a.(end := start)] && Place(s, a.(end := start), k)
                                && Clip(a, start, end) == (start, a.end) && start < a.end
    ensures start <= a.start && end < a.end ==> Trim([a], start, end) == [a.(start := end)]
    ensures start <= a.start && end < a.end ==> Place(s, a.(start := end), k)
                                                && Clip(a, start, end) == (a.start, end) && a.start < end
    ensures start <= a.start && a.end <= end ==> s[..k] + Trim([a], start, end) + s[k..] == s
                                                 && Clip(a, start, end) == (a.start, a.end)
  {
    assert [a][0] == a;
    assert Trim([a][1..], start, end) == [];
    assert s[..k] + [] + s[k..] == s;
  }

  /** The areas from `j` on are trimmed, and the one before them is the next. */
  lemma {:induction false} TrimNext(pre: seq<Area>, mid: seq<Area>, post: seq<Area>, s: int, e: int, j: nat)
    requires Ordered(pre + mid + post) && Meets(mid, s, e) && j < |mid|
    ensures Place(pre + Trim(mid[j + 1..], s, e) + post, mid[j], |pre|)
    ensures Meets([mid[j]], s, e) && mid[j].start < mid[j].end
    ensures var t := pre + Trim(mid[j + 1..], s, e) + post;
            t[..|pre|] + Trim([mid[j]], s, e) + t[|pre|..] == pre + Trim(mid[j..], s, e) + post
  {
    assert mid[j..] == [mid[j]] + mid[j + 1..];
    assert (pre + mid + post)[|pre| + j] == mid[j];
    TrimPlace(pre, mid, post, s, e, j);
    TrimConcat([mid[j]], mid[j + 1..], s, e);
    Regroup(pre, Trim([mid[j]], s, e), Trim(mid[j + 1..], s, e), post);
  }

  lemma {:induction false} ClipsNext(mid: seq<Area>, s: int, e: int, j: nat)
    requires j < |mid|
    ensures Clips(mid[j..], s, e) == Clips(mid[j + 1..], s, e) + [Clip(mid[j], s, e)]
  {
    assert mid[j..] == [mid[j]] + mid[j + 1..];
    assert mid[j..][1..] == mid[j + 1..];
  }

  lemma {:induction false} Regroup<T>(a: seq<T>, b: seq<T>, c: seq<T>, d: seq<T>)
    ensures var t := a + c + d; t[..|a|] + b + t[|a|..] == a + (b + c) + d
  {
  }

  /** Whole pages of user memory. */
  ghost predicate UserPages(start: int, end: int) {
    start % PGSIZE == 0 && end % PGSIZE == 0 && USERBASE <= start && end <= USERTOP
  }

  ghost predicate Paged(s: seq<Area>) {
    forall i :: 0 <= i < |s| ==> UserPages(s[i].start, s[i].end)
  }

  lemma {:induction false} TrimPaged(mid: seq<Area>, s: int, e: int)
    requires Paged(mid) && Meets(mid, s, e) && UserPages(s, e)
    ensures Paged(Trim(mid, s, e))
  {
    if mid != [] {
      assert UserPages(mid[0].start, mid[0].end);
      TrimPaged(mid[1..], s, e);
    }
  }

  // ---------- the effect of mm_unmap ----------

  /** Exact subtraction: [start, end) is not mapped any more, everything else is as before. */
  ghost predicate Subtracted(s: seq<Area>, s': seq<Area>, start: int, end: int) {
    forall x :: Flags(s', x) == if start <= x < end then None else Flags(s, x)
  }

  /** The ranges are just the part of [start, end) that was mapped. */
  ghost predicate ClearsMapped(ranges: seq<(int, int)>, s: seq<Area>, start: int, end: int) {
    forall x :: Covers(ranges, x) <==> start <= x < end && Flags(s, x).Some?
  }

  ghost predicate Clears(s: seq<Area>, s': seq<Area>, ranges: seq<(int, int)>, start: int, end: int) {
    Subtracted(s, s', start, end) && ClearsMapped(ranges, s, start, end)
  }

  /** The `m` areas from `k` on are those that overlap [start, end). */
  ghost predicate Overlapping(s: seq<Area>, k: nat, m: nat, start: int, end: int) {
    && k + m <= |s| && start < end && Meets(s[k..k + m], start, end)
    && (forall i :: 0 <= i < k ==> s[i].end <= start)
    && (forall i :: k + m <= i < |s| ==> end <= s[i].start)
  }

  lemma {:induction false} OverlappingAre(s: seq<Area>, k: nat, m: nat, start: int, end: int)
    requires Ordered(s) && FirstEndingAfter(s, start, k) && start < end && 1 <= m && k + m <= |s|
    requires start <= s[k].start || s[k].end <= end
    requires forall i :: k <= i < k + m ==> s[i].start < end
    requires k + m < |s| ==> end <= s[k + m].start
    ensures Overlapping(s, k, m, start, end)
  {
    forall i | k <= i < k + m
      ensures start < s[i].end && (start <= s[i].start || s[i].end <= end)
    {
      assert i > k ==> s[k].end <= s[i].start;
    }
    forall i | k + m <= i < |s|
      ensures end <= s[i].start
    {
      assert i > k + m ==> s[k + m].start < s[k + m].end <= s[i].start;
    }
  }

  lemma {:induction false} Cuts(s: seq<Area>, k: nat, m: nat)
    requires k + m <= |s|
    ensures s == s[..k] + s[k..k + m] + s[k + m..]
  {
  }

  lemma {:induction false} CutPaged(s: seq<Area>, k: nat, m: nat, start: int, end: int)
    requires Paged(s) && Overlapping(s, k, m, start, end) && UserPages(start, end)
    ensures Paged(s[k..k + m]) && Paged(s[..k] + Trim(s[k..k + m], start, end) + s[k + m..])
  {
    var pre, mid, post := s[..k], s[k..k + m], s[k + m..];
    TrimPaged(mid, start, end);
    var left := pre + Trim(mid, start, end) + post;
    assert forall i :: 0 <= i < |left| ==> left[i] in pre || left[i] in Trim(mid, start, end) || left[i] in post;
  }

  ghost predicate Beside(pre: seq<Area>, post: seq<Area>, start: int, end: int) {
    (forall i :: 0 <= i < |pre| ==> pre[i].end <= start) && forall i :: 0 <= i < |post| ==> end <= post[i].start
  }

  lemma {:induction false} CutSubtracted(pre: seq<Area>, mid: seq<Area>, post: seq<Area>, start: int, end: int)
    requires Ordered(pre + mid + post) && Meets(mid, start, end) && start < end && Beside(pre, post, start, end)
    ensures Subtracted(pre + mid + post, pre + Trim(mid, start, end) + post, start, end)
    ensures ClearsMapped(Clips(mid, start, end), pre + mid + post, start, end)
  {
    hide Ordered, Trim, Meets, Clips, Flags;
    forall x
      ensures Flags(pre + Trim(mid, start, end) + post, x) == if start <= x < end then None
              else Flags(pre + mid + post, x)
    {
      FlagsCut(pre, mid, post, start, end, x);
    }
    forall x
      ensures Covers(Clips(mid, start, end), x) <==> start <= x < end && Flags(pre + mid + post, x).Some?
    {
      ClipsCoverAll(pre, mid, post, start, end, x);
    }
  }

  ghost predicate NonEmpty(mid: seq<Area>) {
    forall i :: 0 <= i < |mid| ==> mid[i].start < mid[i].end
  }

  /** Ranges of whole pages, none of them empty. */
  ghost predicate PageRanges(ranges: seq<(int, int)>) {
    forall i :: 0 <= i < |ranges| ==> ranges[i].0 < ranges[i].1 && UserPages(ranges[i].0, ranges[i].1)
  }

  lemma {:induction false} NoRanges()
    ensures PageRanges([])
  {
  }

  lemma {:induction false} PagedAt(s: seq<Area>, k: nat)
    requires Paged(s) && k < |s|
    ensures s[k].start % PGSIZE == 0 && s[k].end % PGSIZE == 0
  {
    assert UserPages(s[k].start, s[k].end);
  }

  lemma {:induction false} ClipsPages(mid: seq<Area>, s: int, e: int)
    requires Paged(mid) && Meets(mid, s, e) && UserPages(s, e) && s < e && NonEmpty(mid)
    ensures PageRanges(Clips(mid, s, e))
  {
    if mid != [] {
      ClipsPages(mid[1..], s, e);
      assert UserPages(mid[0].start, mid[0].end);
    }
  }

  lemma {:induction false} CutOut(s: seq<Area>, k: nat, m: nat, start: int, end: int)
    requires Ordered(s) && Paged(s) && Overlapping(s, k, m, start, end) && UserPages(start, end)
    ensures var mid := s[k..k + m];
            && s == s[..k] + mid + s[k + m..] && Meets(mid, start, end)
            && Paged(mid) && Paged(s[..k] + Trim(mid, start, end) + s[k + m..])
            && Subtracted(s, s[..k] + Trim(mid, start, end) + s[k + m..], start, end)
            && ClearsMapped(Clips(mid, start, end), s, start, end)
            && PageRanges(Clips(mid, start, end))
  {
    hide *;
    OverlappingBounds(s, k, m, start, end);
    NotEmpty(s, k, m);
    Cuts(s, k, m);
    CutPaged(s, k, m, start, end);
    CutSubtracted(s[..k], s[k..k + m], s[k + m..], start, end);
    ClipsPages(s[k..k + m], start, end);
  }

  lemma {:induction false} NotEmpty(s: seq<Area>, k: nat, m: nat)
    requires Ordered(s) && k + m <= |s|
    ensures NonEmpty(s[k..k + m])
  {
  }

  lemma {:induction false} OverlappingBounds(s: seq<Area>, k: nat, m: nat, start: int, end: int)
    requires Overlapping(s, k, m, start, end)
    ensures k + m <= |s| && start < end && Meets(s[k..k + m], start, end)
    ensures Beside(s[..k], s[k + m..], start, end)
  {
  }

  /** The same when one area reaches out on both sides. */
  lemma {:induction false} CutInside(s: seq<Area>, k: nat, start: int, end: int)
    requires Ordered(s) && Paged(s) && k < |s| && s[k].start < start < end < s[k].end && UserPages(start, end)
    ensures var s' := s[..k] + [s[k].(end := start)] + ([s[k].(start := end)] + s[k + 1..]);
            Paged(s') && Subtracted(s, s', start, end) && ClearsMapped([(start, end)], s, start, end)
    ensures PageRanges([(start, end)])
  {
    var s' := s[..k] + [s[k].(end := start)] + ([s[k].(start := end)] + s[k + 1..]);
    assert s == s[..k] + [s[k]] + s[k + 1..];
    forall x
      ensures Flags(s', x) == if start <= x < end then None else Flags(s, x)
    {
      FlagsSplit(s[..k], s[k], s[k + 1..], start, end, x);
    }
    forall x
      ensures Covers([(start, end)], x) <==> start <= x < end && Flags(s, x).Some?
    {
      assert [(start, end)][0] == (start, end);
      if start <= x < end {
        FlagsSome(s, k, x);
      }
    }
    assert forall i :: 0 <= i < |s'| ==> s'[i] == if i < k then s[i] else if i == k then s[k].(end := start)
                                                  else if i == k + 1 then s[k].(start := end) else s[i - 1];
  }

  /** Nothing is mapped in the range, so there is nothing to do. */
  lemma {:induction false} CutNothing(s: seq<Area>, start: int, end: int)
    requires Unmapped(s, start, end)
    ensures Subtracted(s, s, start, end) && ClearsMapped([], s, start, end) && PageRanges([])
  {
  }

  // ---------- the effect of mm_brk ----------

  /** [start, end) is mapped with `flags`, everything else is as before. */
  ghost predicate Remapped(s: seq<Area>, s': seq<Area>, start: int, end: int, flags: bv32) {
    forall x :: Flags(s', x) == if start <= x < end then Some(flags) else Flags(s, x)
  }

  /** The area that ends at `start` grows over [start, end), which is free. */
  lemma {:induction false} Grown(s: seq<Area>, start: int, end: int, k: nat)
    requires Ordered(s) && k < |s| && s[k].end == start < end && Unmapped(s, start, end)
    ensures Ordered(s[k := s[k].(end := end)]) && Remapped(s, s[k := s[k].(end := end)], start, end, s[k].flags)
  {
    var t := s[k := s[k].(end := end)];
    forall i | k < i < |s|
      ensures end <= s[i].start
    {
      assert s[k].end <= s[i].start < s[i].end;
      if s[i].start < end {
        FlagsSome(s, i, s[i].start);
      }
    }
    forall x
      ensures Flags(t, x) == if start <= x < end then Some(s[k].flags) else Flags(s, x)
    {
      assert s == s[..k] + [s[k]] + s[k + 1..] && t == s[..k] + [t[k]] + s[k + 1..];
      FlagsConcat3(s[..k], [s[k]], s[k + 1..], x);
      FlagsConcat3(s[..k], [t[k]], s[k + 1..], x);
      FlagsOne(s[k], x);
      FlagsOne(t[k], x);
      if start <= x < end {
        FlagsNone(s[..k], x);
      }
    }
  }

  /** The first area that ends at or behind `start` shows the place of an area in the free [start, end). */
  lemma {:induction false} BrkPlace(s: seq<Area>, start: int, end: int, flags: bv32, k: nat)
    requires Ordered(s) && FirstEndingAfter(s, start - 1, k) && start < end && Unmapped(s, start, end)
    ensures Place(s, Area(start, end, flags), if k < |s| && s[k].end == start then k + 1 else k)
  {
    forall i | k <= i < |s| && s[i].end > start
      ensures end <= s[i].start
    {
      if s[i].start < end {
        FlagsSome(s, i, if s[i].start < start then start else s[i].start);
      }
    }
    assert k < |s| && s[k].end == start ==> forall i :: k < i < |s| ==> s[k].end <= s[i].start < s[i].end;
  }

  lemma {:induction false} RemappedAdded(s: seq<Area>, start: int, end: int, flags: bv32, k: nat)
    requires Ordered(s) && start < end && Place(s, Area(start, end, flags), k)
    ensures Remapped(s, s[..k] + [Area(start, end, flags)] + s[k..], start, end, flags)
  {
    forall x
      ensures Flags(s[..k] + [Area(start, end, flags)] + s[k..], x) == if start <= x < end then Some(flags)
              else Flags(s, x)
    {
      FlagsPlaced(s, Area(start, end, flags), k, x);
    }
  }

  lemma {:induction false} PagedAdded(s: seq<Area>, a: Area, k: nat)
    requires Paged(s) && UserPages(a.start, a.end) && k <= |s|
    ensures Paged(s[..k] + [a] + s[k..])
  {
  }

  lemma {:induction false} RemappedAfter(s: seq<Area>, t: seq<Area>, u: seq<Area>, start: int, end: int, flags: bv32)
    requires Subtracted(s, t, start, end) && Remapped(t, u, start, end, flags)
    ensures Remapped(s, u, start, end, flags)
  {
  }

  // ---------- free ranges ----------

  /** No area overlaps the `len` addresses from `start` on, which are all in user memory. */
  ghost predicate FreeRange(s: seq<Area>, start: int, len: int) {
    && USERBASE <= start && start + len <= USERTOP
    && forall i :: 0 <= i < |s| ==> s[i].end <= start || start + len <= s[i].start
  }

  /** Every free range of that length starts at or below `start`, all areas from `k` on are behind it. */
  ghost predicate FreeBelow(s: seq<Area>, k: nat, start: int, len: int) {
    && k <= |s| && start + len <= USERTOP
    && (forall i :: k <= i < |s| ==> start + len <= s[i].start)
    && (forall x :: FreeRange(s, x, len) ==> x <= start)
  }

  /** One step of the search down from the top of user memory. */
  lemma {:induction false} FreeStep(s: seq<Area>, k: nat, start: int, len: int)
    requires Ordered(s) && Paged(s) && len > 0 && k < |s| && FreeBelow(s, k + 1, start, len)
    ensures s[k].end <= start ==> FreeRange(s, start, len)
    ensures start < s[k].end && start + len <= s[k].start ==> FreeBelow(s, k, start, len)
    ensures start < s[k].end && s[k].start < start + len ==> FreeBelow(s, k, s[k].start - len, len)
  {
    assert UserPages(s[k].start, s[k].end);
    if s[k].end <= start {
      assert forall i :: 0 <= i < k ==> s[i].end <= s[k].start < s[k].end;
    } else if s[k].start < start + len {
      assert forall i :: k < i < |s| ==> s[k].end <= s[i].start;
    }
  }
}
