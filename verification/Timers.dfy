/**
 The timer list (kern/schedule/sched.c). Each timer has the ticks that remain after the one before it; what
 the list means is a sequence of timers with the ticks that remain until each of them fires.
 */
module Timers {
  import opened Defs
  import opened Lists

  class Timer {
    var expires: int
    const proc: int

    /** timer_init. */
    constructor (proc: int, expires: int)
      ensures this.expires == expires && this.proc == proc
    {
      this.expires, this.proc := expires, proc;
    }
  }

  // ---------- what the deltas mean ----------

  /** A timer with the ticks until it fires. */
  datatype Due = Due(timer: Timer, ticks: int)

  /** The ticks up to the timer at `i`: the sum of the deltas. */
  function Sum(deltas: seq<int>, i: nat): int
    requires i <= |deltas|
  {
    if i == 0 then 0 else Sum(deltas, i - 1) + deltas[i - 1]
  }

  ghost function DuesOf(timers: seq<Timer>, deltas: seq<int>): (r: seq<Due>)
    requires |timers| == |deltas|
    ensures |r| == |timers|
    ensures forall i :: 0 <= i < |r| ==> r[i] == Due(timers[i], Sum(deltas, i + 1))
  {
    seq(|timers|, i requires 0 <= i < |timers| => Due(timers[i], Sum(deltas, i + 1)))
  }

  // ---------- the timers as deadlines ----------

  /** Ordered by deadline, all of them to come, and within 32 bits. */
  ghost predicate Scheduled(d: seq<Due>) {
    && (forall i :: 0 <= i < |d| ==> 0 < d[i].ticks < TWO_32)
    && (forall i, j :: 0 <= i < j < |d| ==> d[i].ticks <= d[j].ticks && d[i].timer != d[j].timer)
  }

  /** A new timer goes behind all that fire no later. */
  ghost predicate Added(d: seq<Due>, t: Timer, ticks: int, d': seq<Due>) {
    exists k: nat :: AddedAt(d, t, ticks, d', k)
  }

  ghost predicate AddedAt(d: seq<Due>, t: Timer, ticks: int, d': seq<Due>, k: nat) {
    && k <= |d| && d' == d[..k] + [Due(t, ticks)] + d[k..]
    && (forall i :: 0 <= i < k ==> d[i].ticks <= ticks)
    && (forall i :: k <= i < |d| ==> ticks < d[i].ticks)
  }

  /** The other timers keep their deadlines. */
  ghost function Deleted(d: seq<Due>, t: Timer): seq<Due> {
    if d == [] then [] else if d[0].timer == t then d[1..] else [d[0]] + Deleted(d[1..], t)
  }

  /** One tick: those that were due in one tick have fired, in their order. */
  ghost predicate Ticked(d: seq<Due>, fired: seq<Timer>, d': seq<Due>) {
    && |d| == |fired| + |d'|
    && (forall i :: 0 <= i < |fired| ==> d[i] == Due(fired[i], 1))
    && (forall i :: 0 <= i < |d'| ==> d[|fired| + i] == Due(d'[i].timer, d'[i].ticks + 1) && d'[i].ticks > 0)
  }

  // ---------- sums ----------

  /** Equal deltas up to `i`. */
  lemma {:induction false} SumSame(a: seq<int>, b: seq<int>, i: nat)
    requires i <= |a| && i <= |b| && a[..i] == b[..i]
    ensures Sum(a, i) == Sum(b, i)
  {
    if i > 0 {
      assert a[..i - 1] == a[..i][..i - 1] && b[..i - 1] == b[..i][..i - 1];
      assert a[i - 1] == a[..i][i - 1] && b[i - 1] == b[..i][i - 1];
      SumSame(a, b, i - 1);
    }
  }

  /** Deltas from `k` on, moved by `shift`, where the sums differ by `gap`. */
  lemma {:induction false} SumShift(a: seq<int>, b: seq<int>, k: nat, shift: int, gap: int, i: nat)
    requires k <= i <= |a| && 0 <= k + shift && i + shift <= |b|
    requires Sum(b, k + shift) == Sum(a, k) + gap
    requires forall j :: k <= j < i ==> b[j + shift] == a[j]
    ensures Sum(b, i + shift) == Sum(a, i) + gap
  {
    if i > k {
      SumShift(a, b, k, shift, gap, i - 1);
    }
  }

  lemma {:induction false} SumUp(a: seq<int>, i: nat, j: nat)
    requires i <= j <= |a| && forall k {:trigger a[k]} :: i <= k < j ==> 0 <= a[k]
    ensures Sum(a, i) <= Sum(a, j)
  {
    if i < j {
      SumUp(a, i, j - 1);
    }
  }

  /** The head has a delta, and the others none below zero. */
  ghost predicate DeltasOk(deltas: seq<int>) {
    && (deltas != [] ==> deltas[0] > 0)
    && (forall i :: 0 <= i < |deltas| ==> 0 <= deltas[i])
    && (forall i :: 0 <= i <= |deltas| ==> Sum(deltas, i) < TWO_32)
  }

  lemma {:induction false} SumsPositive(deltas: seq<int>, i: nat)
    requires DeltasOk(deltas) && 1 <= i <= |deltas|
    ensures Sum(deltas, i) > 0
  {
    assert Sum(deltas, 1) == Sum(deltas, 0) + deltas[0];
    SumUp(deltas, 1, i);
  }

  lemma {:induction false} DeltasScheduled(timers: seq<Timer>, deltas: seq<int>)
    requires |timers| == |deltas| && DeltasOk(deltas) && NoDup(timers)
    ensures Scheduled(DuesOf(timers, deltas))
  {
    forall i, j | 1 <= i <= j <= |deltas|
      ensures 0 < Sum(deltas, i) <= Sum(deltas, j)
    {
      SumsPositive(deltas, i);
      SumUp(deltas, i, j);
    }
  }

  // ---------- the effect of the operations on the deltas ----------

  /** add_timer at `k`: the rest of the time is the delta, and is taken off the next one. */
  ghost function InsertDelta(deltas: seq<int>, k: nat, rest: int): seq<int>
    requires k <= |deltas|
  {
    deltas[..k] + [rest] + if k < |deltas| then [deltas[k] - rest] + deltas[k + 1..] else []
  }

  lemma {:induction false} InsertSums(deltas: seq<int>, k: nat, rest: int, i: nat)
    requires k <= |deltas| && i <= |deltas| + 1
    ensures |InsertDelta(deltas, k, rest)| == |deltas| + 1
    ensures Sum(InsertDelta(deltas, k, rest), i) ==
      if i <= k then Sum(deltas, i) else if i == k + 1 then Sum(deltas, k) + rest else Sum(deltas, i - 1)
  {
    var b := InsertDelta(deltas, k, rest);
    if i <= k {
      assert b[..i] == deltas[..i];
      SumSame(b, deltas, i);
    } else {
      assert b[..k] == deltas[..k];
      SumSame(b, deltas, k);
      assert Sum(b, k + 1) == Sum(b, k) + b[k];
      if i > k + 1 {
        assert Sum(b, k + 2) == Sum(b, k + 1) + b[k + 1];
        SumShift(deltas, b, k + 1, 1, 0, i - 1);
      }
    }
  }

  /** del_timer at `k`: the next timer gets the delta. */
  ghost function RemoveDelta(deltas: seq<int>, k: nat): seq<int>
    requires k < |deltas|
  {
    deltas[..k] + if k + 1 < |deltas| then [deltas[k + 1] + deltas[k]] + deltas[k + 2..] else []
  }

  lemma {:induction false} RemoveSums(deltas: seq<int>, k: nat, i: nat)
    requires k < |deltas| && i < |deltas|
    ensures |RemoveDelta(deltas, k)| == |deltas| - 1
    ensures Sum(RemoveDelta(deltas, k), i) == if i <= k then Sum(deltas, i) else Sum(deltas, i + 1)
  {
    var b := RemoveDelta(deltas, k);
    if i <= k {
      assert b[..i] == deltas[..i];
      SumSame(b, deltas, i);
    } else {
      assert b[..k] == deltas[..k];
      SumSame(b, deltas, k);
      assert Sum(b, k + 1) == Sum(b, k) + b[k];
      assert Sum(deltas, k + 2) == Sum(deltas, k + 1) + deltas[k + 1];
      SumShift(deltas, b, k + 2, -1, 0, i + 1);
    }
  }

  /** A place where a timer with these ticks can be added. */
  ghost predicate Fits(deltas: seq<int>, k: nat, ticks: int) {
    && k <= |deltas| && 0 < ticks < TWO_32 && Sum(deltas, k) <= ticks
    && (k < |deltas| ==> ticks < Sum(deltas, k + 1))
  }

  lemma {:induction false} InsertOk(deltas: seq<int>, ticks: int, k: nat)
    requires DeltasOk(deltas) && Fits(deltas, k, ticks)
    ensures DeltasOk(InsertDelta(deltas, k, ticks - Sum(deltas, k)))
  {
    var rest := ticks - Sum(deltas, k);
    var deltas' := InsertDelta(deltas, k, rest);
    forall i: nat | i <= |deltas'|
      ensures Sum(deltas', i) < TWO_32
    {
      InsertSums(deltas, k, rest, i);
    }
    assert k < |deltas| ==> Sum(deltas, k + 1) == Sum(deltas, k) + deltas[k];
    forall i | 0 <= i < |deltas'|
      ensures 0 <= deltas'[i]
    {
      assert deltas'[i] == if i < k then deltas[i] else if i == k then rest
                           else if i == k + 1 then deltas[k] - rest else deltas[i - 1];
    }
  }

  lemma {:induction false} InsertedBetween<T>(s: seq<T>, k: nat, v: T)
    requires k <= |s| && NoDup(s) && v !in s
    ensures NoDup(s[..k] + [v] + s[k..])
  {
    var t := s[..k] + [v] + s[k..];
    assert forall i :: 0 <= i < |t| ==> t[i] == if i < k then s[i] else if i == k then v else s[i - 1];
  }

  lemma {:induction false} InsertedIs<T>(s: seq<T>, t: seq<T>, k: nat, v: T)
    requires k <= |s| && |t| == |s| + 1
    requires t[k] == v && forall i :: 0 <= i < |t| && i != k ==> t[i] == s[if i < k then i else i - 1]
    ensures t == s[..k] + [v] + s[k..]
  {
  }

  lemma {:induction false} RemovedIs<T>(s: seq<T>, t: seq<T>, k: nat)
    requires k < |s| && |t| == |s| - 1
    requires forall i :: 0 <= i < |t| ==> t[i] == s[if i < k then i else i + 1]
    ensures t == s[..k] + s[k + 1..]
  {
  }

  /** Adding at the place that the deltas show. */
  lemma {:induction false} InsertAdds(timers: seq<Timer>, deltas: seq<int>, t: Timer, ticks: int, k: nat)
    requires |timers| == |deltas| && DeltasOk(deltas) && Fits(deltas, k, ticks)
    ensures var deltas', timers' := InsertDelta(deltas, k, ticks - Sum(deltas, k)), timers[..k] + [t] + timers[k..];
            |timers'| == |deltas'| && Added(DuesOf(timers, deltas), t, ticks, DuesOf(timers', deltas'))
  {
    var rest := ticks - Sum(deltas, k);
    var deltas', timers' := InsertDelta(deltas, k, rest), timers[..k] + [t] + timers[k..];
    var d, d' := DuesOf(timers, deltas), DuesOf(timers', deltas');
    forall i | 0 <= i < |d'|
      ensures if i == k then d'[i] == Due(t, ticks) else d'[i] == d[if i < k then i else i - 1]
    {
      InsertSums(deltas, k, rest, i + 1);
    }
    InsertedIs(d, d', k, Due(t, ticks));
    forall i | 0 <= i < |deltas|
      ensures i < k ==> d[i].ticks <= ticks
      ensures k <= i ==> ticks < d[i].ticks
    {
      if i < k {
        SumUp(deltas, i + 1, k);
      } else {
        SumUp(deltas, k + 1, i + 1);
      }
    }
    assert AddedAt(d, t, ticks, d', k);
  }

  lemma {:induction false} DeletedAt(d: seq<Due>, k: nat)
    requires k < |d| && forall i, j :: 0 <= i < j < |d| ==> d[i].timer != d[j].timer
    ensures Deleted(d, d[k].timer) == d[..k] + d[k + 1..]
  {
    if k > 0 {
      DeletedAt(d[1..], k - 1);
      assert [d[0]] + (d[1..][..k - 1] + d[1..][k..]) == d[..k] + d[k + 1..];
    }
  }

  lemma {:induction false} DeletedNone(d: seq<Due>, t: Timer)
    requires forall i :: 0 <= i < |d| ==> d[i].timer != t
    ensures Deleted(d, t) == d
  {
    if d != [] {
      DeletedNone(d[1..], t);
    }
  }

  lemma {:induction false} DeletedNot(timers: seq<Timer>, deltas: seq<int>, t: Timer)
    requires |timers| == |deltas| && t !in timers
    ensures Deleted(DuesOf(timers, deltas), t) == DuesOf(timers, deltas)
  {
    DeletedNone(DuesOf(timers, deltas), t);
  }

  lemma {:induction false} RemoveOk(deltas: seq<int>, k: nat)
    requires DeltasOk(deltas) && k < |deltas|
    ensures DeltasOk(RemoveDelta(deltas, k))
  {
    var deltas' := RemoveDelta(deltas, k);
    forall i: nat | i <= |deltas'|
      ensures Sum(deltas', i) < TWO_32
    {
      RemoveSums(deltas, k, i);
    }
    forall i | 0 <= i < |deltas'|
      ensures 0 <= deltas'[i]
    {
      assert deltas'[i] == if i < k then deltas[i] else if i == k then deltas[k + 1] + deltas[k] else deltas[i + 1];
    }
  }

  lemma {:induction false} RemoveDeletes(timers: seq<Timer>, deltas: seq<int>, k: nat)
    requires |timers| == |deltas| && NoDup(timers) && k < |deltas|
    ensures var deltas', timers' := RemoveDelta(deltas, k), timers[..k] + timers[k + 1..];
            |timers'| == |deltas'| && DuesOf(timers', deltas') == Deleted(DuesOf(timers, deltas), timers[k])
  {
    var deltas', timers' := RemoveDelta(deltas, k), timers[..k] + timers[k + 1..];
    var d, d' := DuesOf(timers, deltas), DuesOf(timers', deltas');
    DeletedAt(d, k);
    forall i | 0 <= i < |d'|
      ensures d'[i] == d[if i < k then i else i + 1]
    {
      RemoveSums(deltas, k, i + 1);
    }
    RemovedIs(d, d', k);
  }

  lemma {:induction false} SumZeros(deltas: seq<int>, f: nat)
    requires 0 < f <= |deltas| && forall j :: 0 < j < f ==> deltas[j] == 0
    ensures Sum(deltas, f) == deltas[0]
  {
    if f > 1 {
      SumZeros(deltas, f - 1);
    } else {
      assert Sum(deltas, 1) == Sum(deltas, 0) + deltas[0];
    }
  }

  /** The first `f` timers are due in one tick. */
  ghost predicate DueNow(deltas: seq<int>, f: nat) {
    deltas != [] && f <= |deltas| && (f > 0 ==> deltas[0] == 1) && forall j :: 0 < j < f ==> deltas[j] == 0
  }

  /** The deltas after a tick, when the first `f` timers have fired. */
  ghost function TickDelta(deltas: seq<int>, f: nat): (r: seq<int>)
    requires deltas != [] && f <= |deltas|
    ensures |r| == |deltas| - f
    ensures forall i :: 0 <= i < |r| ==> r[i] == if f + i == 0 then deltas[0] - 1 else deltas[f + i]
  {
    deltas[0 := deltas[0] - 1][f..]
  }

  lemma {:induction false} TickSums(deltas: seq<int>, f: nat, i: nat)
    requires DueNow(deltas, f) && f <= i <= |deltas| && i > 0
    ensures Sum(TickDelta(deltas, f), i - f) == Sum(deltas, i) - 1
  {
    hide TickDelta;
    var b := TickDelta(deltas, f);
    assert Sum(deltas, 1) == Sum(deltas, 0) + deltas[0];
    if f == 0 {
      assert Sum(b, 1) == Sum(b, 0) + b[0];
      SumShift(deltas, b, 1, 0, -1, i);
    } else {
      SumZeros(deltas, f);
      var shift: int := 0 - f;
      SumShift(deltas, b, f, shift, -1, i);
    }
  }

  lemma {:induction false} TickOk(deltas: seq<int>, f: nat)
    requires DeltasOk(deltas) && DueNow(deltas, f)
    requires f < |deltas| ==> TickDelta(deltas, f)[0] > 0
    ensures DeltasOk(TickDelta(deltas, f))
  {
    hide TickDelta, Sum;
    var deltas' := TickDelta(deltas, f);
    forall i: nat | i <= |deltas'|
      ensures Sum(deltas', i) < TWO_32
    {
      if f + i > 0 {
        TickSums(deltas, f, f + i);
      } else {
        SumNone(deltas');
      }
    }
  }

  lemma {:induction false} SumNone(deltas: seq<int>)
    ensures Sum(deltas, 0) == 0
  {
  }

  lemma {:induction false} TickTicks(timers: seq<Timer>, deltas: seq<int>, f: nat)
    requires |timers| == |deltas| && DeltasOk(deltas) && DueNow(deltas, f)
    requires f < |deltas| ==> TickDelta(deltas, f)[0] > 0
    ensures Ticked(DuesOf(timers, deltas), timers[..f], DuesOf(timers[f..], TickDelta(deltas, f)))
  {
    hide TickDelta, Sum;
    var deltas' := TickDelta(deltas, f);
    var d, d' := DuesOf(timers, deltas), DuesOf(timers[f..], deltas');
    TickOk(deltas, f);
    forall i | 0 <= i < f
      ensures d[i] == Due(timers[i], 1)
    {
      SumZeros(deltas, i + 1);
    }
    forall i | 0 <= i < |d'|
      ensures d[f + i] == Due(d'[i].timer, d'[i].ticks + 1) && d'[i].ticks > 0
    {
      TickSums(deltas, f, f + i + 1);
      SumsPositive(deltas', i + 1);
    }
  }

  /** During a tick: the timers in `fired` have left the list, which has the deltas `expires`. */
  ghost predicate Firing(timers: seq<Timer>, deltas: seq<int>, fired: seq<Timer>, list: seq<Timer>, expires: seq<int>) {
    && |fired| <= |timers| == |deltas| && deltas != [] && NoDup(list)
    && fired == timers[..|fired|] && list == timers[|fired|..]
    && DueNow(deltas, |fired|) && expires == TickDelta(deltas, |fired|)
  }

  lemma {:induction false} FiringNone(timers: seq<Timer>, deltas: seq<int>)
    requires |timers| == |deltas| && deltas != [] && NoDup(timers)
    ensures Firing(timers, deltas, [], timers, deltas[0 := deltas[0] - 1])
  {
  }

  lemma {:induction false} FiringNext(timers: seq<Timer>, deltas: seq<int>, fired: seq<Timer>, list: seq<Timer>,
                                      expires: seq<int>)
    requires Firing(timers, deltas, fired, list, expires) && list != [] && |expires| == |list| && expires[0] == 0
    ensures Firing(timers, deltas, fired + [list[0]], list[..0] + list[1..], RemoveDelta(expires, 0))
  {
    hide NoDup;
    DeltaRemoved(expires, 0);
    FewerNoDup(list);
    assert timers[|fired|..][1..] == timers[|fired| + 1..] && expires[..0] + expires[1..] == expires[1..];
    assert TickDelta(deltas, |fired| + 1) == expires[1..];
  }

  lemma {:induction false} FewerNoDup(list: seq<Timer>)
    requires NoDup(list) && list != []
    ensures NoDup(list[..0] + list[1..])
  {
  }

  lemma {:induction false} FiringDone(timers: seq<Timer>, deltas: seq<int>, fired: seq<Timer>, list: seq<Timer>,
                                      expires: seq<int>)
    requires Firing(timers, deltas, fired, list, expires) && DeltasOk(deltas) && |expires| == |list|
    requires list != [] ==> expires[0] != 0
    ensures DeltasOk(expires) && NoDup(list) && Ticked(DuesOf(timers, deltas), fired, DuesOf(list, expires))
  {
    assert list != [] ==> expires[0] > 0;
    TickOk(deltas, |fired|);
    TickTicks(timers, deltas, |fired|);
  }

  // ---------- the list ----------

  ghost function Expires(s: seq<Timer>): (r: seq<int>)
    reads s
    ensures |r| == |s| && forall i :: 0 <= i < |s| ==> r[i] == s[i].expires
  {
    if s == [] then [] else [s[0].expires] + Expires(s[1..])
  }

  lemma {:induction false} ExpiresInserted(s: seq<Timer>, k: nat, t: Timer)
    requires k <= |s|
    ensures Expires(s[..k] + [t] + s[k..]) == Expires(s)[..k] + [t.expires] + Expires(s)[k..]
  {
  }

  lemma {:induction false} ExpiresRemoved(s: seq<Timer>, k: nat)
    requires k < |s|
    ensures Expires(s[..k] + s[k + 1..]) == Expires(s)[..k] + Expires(s)[k + 1..]
  {
  }

  lemma {:induction false} DeltaInserted(deltas: seq<int>, k: nat, rest: int)
    requires k <= |deltas|
    ensures var d := if k < |deltas| then deltas[k := deltas[k] - rest] else deltas;
            d[..k] + [rest] + d[k..] == InsertDelta(deltas, k, rest)
  {
  }

  lemma {:induction false} DeltaRemoved(deltas: seq<int>, k: nat)
    requires k < |deltas|
    ensures var d := if k + 1 < |deltas| then deltas[k + 1 := deltas[k + 1] + deltas[k]] else deltas;
            d[..k] + d[k + 1..] == RemoveDelta(deltas, k)
    ensures deltas[k] == 0 ==> deltas[..k] + deltas[k + 1..] == RemoveDelta(deltas, k)
  {
  }

  class TimerList {
    var timer_list: seq<Timer>

    ghost predicate Valid()
      reads this, timer_list
    {
      NoDup(timer_list) && DeltasOk(Expires(timer_list))
    }

    /** The timers with the ticks until they fire, in the order in which they will. */
    ghost function Dues(): seq<Due>
      reads this, timer_list
    {
      DuesOf(timer_list, Expires(timer_list))
    }

    constructor ()
      ensures Valid() && timer_list == []
    {
      timer_list := [];
    }

    /** A new delta for the timer at `k`. */
    method SetDelta(timer: Timer, delta: int, ghost k: nat)
      requires NoDup(timer_list) && k < |timer_list| && timer_list[k] == timer
      modifies timer`expires
      ensures Expires(timer_list) == old(Expires(timer_list))[k := delta]
    {
      timer.expires := delta;
    }

    /** The search of add_timer, which takes the deltas of the timers that are passed off the time of the new one. */
    method FindPlace(timer: Timer) returns (i: nat)
      requires Valid() && timer !in timer_list && 0 < timer.expires < TWO_32
      modifies timer`expires
      ensures Expires(timer_list) == old(Expires(timer_list))
      ensures Fits(Expires(timer_list), i, old(timer.expires))
      ensures timer.expires == old(timer.expires) - Sum(Expires(timer_list), i)
    {
      hide NoDup, DuesOf, Expires;
      ghost var deltas, ticks := Expires(timer_list), timer.expires;
      i := 0;
      while i < |timer_list|
        invariant i <= |timer_list|
        invariant Expires(timer_list) == deltas
        invariant timer.expires == ticks - Sum(deltas, i) >= 0
      {
        var next := timer_list[i];
        assert Sum(deltas, i + 1) == Sum(deltas, i) + deltas[i];
        if timer.expires < next.expires {
          break;
        }
        timer.expires := timer.expires - next.expires;
        i := i + 1;
      }
    }

    /** add_timer: the timer goes behind all that fire no later, and no deadline of another one moves. */
    method AddTimer(timer: Timer)
      requires Valid() && timer !in timer_list && 0 < timer.expires < TWO_32
      modifies this, timer`expires, timer_list`expires
      ensures Valid()
      ensures Added(old(Dues()), timer, old(timer.expires), Dues())
      ensures forall t :: t in timer_list ==> t == timer || t in old(timer_list)
      ensures Scheduled(Dues())
    {
      hide DeltasOk, DuesOf, Added, Scheduled, Sum, Expires, InsertDelta, NoDup;
      ghost var timers, deltas, ticks := timer_list, Expires(timer_list), timer.expires;
      var i := FindPlace(timer);
      InsertAdds(timers, deltas, timer, ticks, i);
      InsertOk(deltas, ticks, i);
      InsertedBetween(timers, i, timer);
      if i < |timer_list| {
        SetDelta(timer_list[i], timer_list[i].expires - timer.expires, i);
      }
      ExpiresInserted(timers, i, timer);
      DeltaInserted(deltas, i, timer.expires);
      timer_list := timer_list[..i] + [timer] + timer_list[i..];
      DeltasScheduled(timer_list, Expires(timer_list));
    }

    /** del_timer: the next timer gets the delta. */
    method Unlink(timer: Timer, ghost k: nat)
      requires NoDup(timer_list) && k < |timer_list| && timer_list[k] == timer
      modifies this, timer_list`expires
      ensures timer_list == old(timer_list)[..k] + old(timer_list)[k + 1..] && NoDup(timer_list)
      ensures Expires(timer_list) == RemoveDelta(old(Expires(timer_list)), k)
    {
      hide Expires, RemoveDelta;
      ghost var timers, deltas := timer_list, Expires(timer_list);
      NextAt(timers, k);
      DelAt(timers, k);
      DelIs(timers, timer);
      DeltaRemoved(deltas, k);
      if timer.expires != 0 {
        var next := Next(timer_list, timer);
        if next.Some? {
          SetDelta(next.value, next.value.expires + timer.expires, k + 1);
        }
      }
      ExpiresRemoved(timers, k);
      timer_list := Del(timer_list, timer);
    }

    /** del_timer: the other timers keep their deadlines; a timer that is not in the list is none of its business. */
    method DelTimer(timer: Timer)
      requires Valid()
      modifies this, timer_list`expires
      ensures Valid()
      ensures Dues() == Deleted(old(Dues()), timer)
      ensures forall t :: t in timer_list ==> t in old(timer_list)
      ensures Scheduled(Dues())
    {
      hide DeltasOk, DuesOf, Scheduled, Sum, Expires, RemoveDelta, NoDup, Deleted;
      ghost var timers, deltas := timer_list, Expires(timer_list);
      if timer in timer_list {
        ghost var k: nat :| k < |timers| && timers[k] == timer;
        Unlink(timer, k);
        RemoveOk(deltas, k);
        RemoveDeletes(timers, deltas, k);
      } else {
        DeletedNot(timers, deltas, timer);
      }
      DeltasScheduled(timer_list, Expires(timer_list));
    }

    /** One round of run_timer_list: the first timer leaves the list, `next` is the one behind it. */
    method FireFirst(timer: Timer, fired: seq<Timer>, ghost timers: seq<Timer>, ghost deltas: seq<int>)
      returns (next: Option<Timer>)
      requires Firing(timers, deltas, fired, timer_list, Expires(timer_list)) && NoDup(timer_list)
      requires timer_list != [] && timer_list[0] == timer && timer.expires == 0
      modifies this, timer_list`expires
      ensures Firing(timers, deltas, fired + [timer], timer_list, Expires(timer_list)) && NoDup(timer_list)
      ensures timer_list == old(timer_list)[1..]
      ensures next == if timer_list == [] then None else Some(timer_list[0])
    {
      hide Firing, Expires, RemoveDelta, NoDup;
      FiringNext(timers, deltas, fired, timer_list, Expires(timer_list));
      NextAt(timer_list, 0);
      next := Next(timer_list, timer);
      Unlink(timer, 0);
    }

    /** run_timer_list: one tick; `fired` are the timers whose processes it wakes up, in this order. */
    method RunTimerList() returns (fired: seq<Timer>)
      requires Valid()
      modifies this, timer_list`expires
      ensures Valid()
      ensures Ticked(old(Dues()), fired, Dues())
      ensures forall t :: t in timer_list ==> t in old(timer_list)
      ensures Scheduled(Dues())
    {
      fired := [];
      if timer_list == [] {
        return;
      }
      hide DeltasOk, DuesOf, Scheduled, Sum, Expires, RemoveDelta, Ticked, TickDelta, Firing, NoDup;
      ghost var timers, deltas := timer_list, Expires(timer_list);
      var timer := timer_list[0];
      FiringNone(timers, deltas);
      SetDelta(timer, timer.expires - 1, 0);
      while timer.expires == 0
        invariant Firing(timers, deltas, fired, timer_list, Expires(timer_list)) && NoDup(timer_list)
        invariant forall t :: t in timer_list ==> t in timers
        invariant timer_list != [] && timer_list[0] == timer
        decreases |timer_list|
      {
        var next := FireFirst(timer, fired, timers, deltas);
        fired := fired + [timer];
        if next == None {
          break;
        }
        timer := next.value;
      }
      FiringDone(timers, deltas, fired, timer_list, Expires(timer_list));
      DeltasScheduled(timer_list, Expires(timer_list));
    }
  }

  // ---------- runs ----------

  datatype Event = AddEvent(timer: Timer, ticks: int) | DelEvent(timer: Timer) | TickEvent(fired: seq<Timer>) | NoEvent

  /** What the methods of `TimerList` promise of each event. */
  ghost predicate Step(d: seq<Due>, e: Event, d': seq<Due>) {
    && Scheduled(d) && Scheduled(d')
    && match e
       case AddEvent(t, ticks) => Added(d, t, ticks, d')
       case DelEvent(t) => d' == Deleted(d, t)
       case TickEvent(fired) => Ticked(d, fired, d')
       case NoEvent => d' == d
  }

  ghost predicate Trace(trace: seq<seq<Due>>, events: seq<Event>) {
    |trace| == |events| + 1 && forall i :: 0 <= i < |events| ==> Step(trace[i], events[i], trace[i + 1])
  }

  function Ticks(events: seq<Event>): nat {
    if events == [] then 0 else Ticks(events[..|events| - 1]) + if events[|events| - 1].TickEvent? then 1 else 0
  }

  ghost predicate Pending(d: seq<Due>, t: Timer, ticks: int) {
    Due(t, ticks) in d
  }

  lemma {:induction false} DeletedKeeps(d: seq<Due>, t: Timer, due: Due)
    requires due in d && due.timer != t
    ensures due in Deleted(d, t)
  {
    if d[0] != due {
      if d[0].timer != t {
        DeletedKeeps(d[1..], t, due);
      }
    }
  }

  /** One event: a pending timer that is not deleted comes closer by the tick, and fires just at its last one. */
  lemma {:induction false} PendingStep(d: seq<Due>, e: Event, d': seq<Due>, t: Timer, ticks: int)
    requires Step(d, e, d') && Pending(d, t, ticks) && e != DelEvent(t)
    ensures !e.TickEvent? ==> Pending(d', t, ticks)
    ensures e.TickEvent? ==> (t in e.fired <==> ticks == 1)
    ensures e.TickEvent? && ticks > 1 ==> Pending(d', t, ticks - 1)
  {
    var i :| 0 <= i < |d| && d[i] == Due(t, ticks);
    match e
    case AddEvent(u, n) =>
      var k: nat :| AddedAt(d, u, n, d', k);
      assert d'[if i < k then i else i + 1] == Due(t, ticks);
    case DelEvent(u) =>
      DeletedKeeps(d, u, Due(t, ticks));
    case TickEvent(fired) =>
      if i < |fired| {
        assert fired[i] == t;
      } else {
        assert d'[i - |fired|] == Due(t, ticks - 1);
      }
    case NoEvent =>
  }

  /**
   A timer that has `ticks` to go is pending with what is left as long as fewer ticks have passed, and fires
   at that tick and at no earlier one, whatever other timers are added, deleted and fire in between.
   */
  lemma {:induction false} FiresOnTime(trace: seq<seq<Due>>, events: seq<Event>, t: Timer, ticks: int)
    requires Trace(trace, events) && Pending(trace[0], t, ticks)
    requires forall i :: 0 <= i < |events| ==> events[i] != DelEvent(t)
    requires events != [] && Ticks(events[..|events| - 1]) < ticks
    ensures Ticks(events) < ticks ==> Pending(trace[|events|], t, ticks - Ticks(events))
    ensures events[|events| - 1].TickEvent? ==>
              (t in events[|events| - 1].fired <==> Ticks(events) == ticks)
    decreases |events|
  {
    hide Step, Pending;
    var n := |events| - 1;
    var before := events[..n];
    if n > 0 {
      TicksGrow(before);
      assert trace[..n + 1][n] == trace[n];
      FiresOnTime(trace[..n + 1], before, t, ticks);
    }
    PendingStep(trace[n], events[n], trace[n + 1], t, ticks - Ticks(before));
  }

  lemma {:induction false} TicksGrow(events: seq<Event>)
    requires events != []
    ensures Ticks(events[..|events| - 1]) <= Ticks(events)
  {
  }

  /** What callers ask for; a timer that is in the list, or whose time is out of range, cannot be added. */
  datatype Call = DoAdd(timer: Timer, ticks: int) | DoDel(timer: Timer) | DoTick

  predicate Answers(c: Call, e: Event) {
    match c
    case DoAdd(t, ticks) => e in {AddEvent(t, ticks), NoEvent}
    case DoDel(t) => e == DelEvent(t)
    case DoTick => e.TickEvent?
  }

  /** The timers that there are. */
  ghost predicate From(list: seq<Timer>, pool: set<Timer>) {
    forall t :: t in list ==> t in pool
  }

  method DoCall(list: TimerList, c: Call, ghost pool: set<Timer>) returns (e: Event)
    requires list.Valid() && From(list.timer_list, pool) && (c.DoTick? || c.timer in pool)
    modifies list, pool`expires
    ensures list.Valid()
    ensures From(list.timer_list, pool)
    ensures Answers(c, e) && Step(old(list.Dues()), e, list.Dues())
    ensures e == NoEvent ==> c.timer in old(list.timer_list) || !(0 < c.ticks < TWO_32)
  {
    hide Added, Ticked, Deleted;
    DeltasScheduled(list.timer_list, Expires(list.timer_list));
    match c {
      case DoAdd(timer, ticks) =>
        if timer in list.timer_list || !(0 < ticks < TWO_32) {
          return NoEvent;
        }
        timer.expires := ticks;
        list.AddTimer(timer);
        e := AddEvent(timer, ticks);
      case DoDel(timer) =>
        list.DelTimer(timer);
        e := DelEvent(timer);
      case DoTick =>
        var fired := list.RunTimerList();
        e := TickEvent(fired);
    }
  }

  /** Any calls of add_timer, del_timer and run_timer_list are a trace, for which `FiresOnTime` holds. */
  method Run(list: TimerList, calls: seq<Call>, ghost pool: set<Timer>)
    returns (ghost trace: seq<seq<Due>>, events: seq<Event>)
    requires list.Valid() && From(list.timer_list, pool)
    requires forall i :: 0 <= i < |calls| ==> calls[i].DoTick? || calls[i].timer in pool
    modifies list, pool`expires
    ensures list.Valid()
    ensures |events| == |calls| && forall i :: 0 <= i < |calls| ==> Answers(calls[i], events[i])
    ensures Trace(trace, events) && trace[0] == old(list.Dues()) && trace[|events|] == list.Dues()
  {
    hide Step, Answers;
    trace, events := [list.Dues()], [];
    for k := 0 to |calls|
      invariant list.Valid()
      invariant From(list.timer_list, pool)
      invariant |events| == k && forall i :: 0 <= i < k ==> Answers(calls[i], events[i])
      invariant Trace(trace, events) && trace[0] == old(list.Dues()) && trace[k] == list.Dues()
    {
      var e := DoCall(list, calls[k], pool);
      trace, events := trace + [list.Dues()], events + [e];
    }
  }
}
