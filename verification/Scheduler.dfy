/**
 The scheduler (kern/schedule/sched.c, sched_RR.c, sched_MLFQ.c): run queues of several levels, and the
 processes that go through them.
 */
module Scheduler {
  import opened Lists

  datatype ProcState = UNINIT | SLEEPING | RUNNABLE | ZOMBIE

  /** `rq` is the level of the queue that the process is on, or was on last. */
  datatype Proc = Proc(state: ProcState, time_slice: int, rq: Option<nat>, need_resched: bool)

  datatype RunQueue = RunQueue(list: seq<nat>, proc_num: int, max_time_slice: int)

  type Procs = map<nat, Proc>

  const IDLE: nat := 0

  // ---------- what holds at all times ----------

  ghost predicate On(procs: Procs, queues: seq<RunQueue>, p: nat)
    requires p in procs
  {
    procs[p].rq.Some? && procs[p].rq.value < |queues| && p in queues[procs[p].rq.value].list
  }

  /** A queue counts its processes, which are there once, with a slice of the level to run. */
  ghost predicate QueueOk(procs: Procs, queue: RunQueue, k: nat) {
    && NoDup(queue.list) && queue.proc_num == |queue.list| && queue.max_time_slice > 0
    && forall p :: p in queue.list ==>
         p in procs && p != IDLE && procs[p].rq == Some(k) && 1 <= procs[p].time_slice <= queue.max_time_slice
  }

  ghost predicate QueuesOk(procs: Procs, queues: seq<RunQueue>) {
    |queues| > 0 && forall k: nat :: k < |queues| ==> QueueOk(procs, queues[k], k)
  }

  ghost predicate ProcOk(proc: Proc, levels: nat) {
    proc.time_slice >= 0 && (proc.rq.Some? ==> proc.rq.value < levels)
  }

  ghost predicate ProcsOk(procs: Procs, levels: nat) {
    IDLE in procs && forall p :: p in procs ==> ProcOk(procs[p], levels)
  }

  /** The processes on a queue are those that could run, but for the idle process and `running`. */
  ghost predicate RunnableOn(procs: Procs, queues: seq<RunQueue>, running: Option<nat>) {
    forall p :: p in procs && p != IDLE ==> (On(procs, queues, p) <==> procs[p].state == RUNNABLE && running != Some(p))
  }

  ghost predicate Ready(procs: Procs, queues: seq<RunQueue>, running: Option<nat>) {
    ProcsOk(procs, |queues|) && QueuesOk(procs, queues) && RunnableOn(procs, queues, running)
  }

  // ---------- a process joins or leaves a queue ----------

  /**
   MLFQ_enqueue and RR_enqueue: the process is the last one on a queue now. This is the first queue, but for a process
   that has used up its slice: that goes one level down, up to the last one. A slice within the level is kept.
   */
  ghost predicate Joined(procs: Procs, queues: seq<RunQueue>, procs': Procs, queues': seq<RunQueue>, p: nat)
    requires p in procs
  {
    && |queues'| == |queues| && procs'.Keys == procs.Keys && (forall o :: o in procs && o != p ==>
                                                                procs'[o] == procs[o])
    && procs'[p].rq.Some?
    && var was, now, k := procs[p], procs'[p], procs'[p].rq.value;
       && k < |queues|
       && k == (if was.rq == None || was.time_slice != 0 then 0
                else if was.rq.value + 1 < |queues| then was.rq.value + 1 else was.rq.value)
       && now.state == was.state && now.need_resched == was.need_resched
       && now.time_slice == (if was.time_slice == 0 || was.time_slice > queues[k].max_time_slice
                             then queues[k].max_time_slice else was.time_slice)
       && queues'[k].list == queues[k].list + [p] && queues'[k].proc_num == queues[k].proc_num + 1
       && queues'[k].max_time_slice == queues[k].max_time_slice
       && forall j: nat :: j < |queues| && j != k ==> queues'[j] == queues[j]
  }

  /** RR_dequeue. */
  function Dequeued(queues: seq<RunQueue>, k: nat, p: nat): (r: seq<RunQueue>)
    requires k < |queues| && p in queues[k].list
  {
    queues[k := queues[k].(list := Del(queues[k].list, p), proc_num := queues[k].proc_num - 1)]
  }

  lemma {:induction false} NotListed(procs: Procs, queues: seq<RunQueue>, p: nat, k: nat)
    requires QueuesOk(procs, queues) && p in procs && !On(procs, queues, p) && k < |queues|
    ensures p !in queues[k].list
  {
    assert QueueOk(procs, queues[k], k);
  }

  /** Joining a queue when it is time to. */
  lemma {:induction false} JoinedReady(procs: Procs, queues: seq<RunQueue>, procs': Procs, queues': seq<RunQueue>,
                                       running: Option<nat>, p: nat)
    requires ProcsOk(procs, |queues|) && QueuesOk(procs, queues) && p in procs && p != IDLE
    requires procs[p].state == RUNNABLE && !On(procs, queues, p) && running != Some(p)
    requires forall o :: o in procs && o != IDLE && o != p ==>
               (On(procs, queues, o) <==> procs[o].state == RUNNABLE && running != Some(o))
    requires Joined(procs, queues, procs', queues', p)
    ensures Ready(procs', queues', running) && On(procs', queues', p)
  {
    var k := procs'[p].rq.value;
    assert QueueOk(procs, queues[k], k);
    assert p in queues'[k].list;
    forall j: nat | j < |queues|
      ensures QueueOk(procs', queues'[j], j)
    {
      assert QueueOk(procs, queues[j], j);
      NotListed(procs, queues, p, j);
    }
    forall o | o in procs && o != IDLE
      ensures On(procs', queues', o) <==> procs[o].state == RUNNABLE && running != Some(o)
    {
      assert o != p ==> (On(procs', queues', o) <==> On(procs, queues, o));
    }
  }

  /** One process changes, but neither its place nor, while it is on a queue, its slice. */
  lemma {:induction false} Changed(procs: Procs, queues: seq<RunQueue>, p: nat, proc: Proc)
    requires ProcsOk(procs, |queues|) && QueuesOk(procs, queues) && p in procs
    requires proc.rq == procs[p].rq && proc.time_slice >= 0
    requires On(procs, queues, p) ==> proc.time_slice == procs[p].time_slice
    ensures ProcsOk(procs[p := proc], |queues|) && QueuesOk(procs[p := proc], queues)
    ensures forall o :: o in procs ==> (On(procs[p := proc], queues, o) <==> On(procs, queues, o))
  {
    forall j: nat | j < |queues|
      ensures QueueOk(procs[p := proc], queues[j], j)
    {
      assert QueueOk(procs, queues[j], j);
      assert p in queues[j].list ==> On(procs, queues, p);
    }
  }

  lemma {:induction false} ChangedReady(procs: Procs, queues: seq<RunQueue>, running: Option<nat>, p: nat, proc: Proc)
    requires Ready(procs, queues, running) && p in procs && proc.rq == procs[p].rq && proc.time_slice >= 0
    requires On(procs, queues, p) ==> proc.time_slice == procs[p].time_slice
    requires running == Some(p) || p == IDLE || proc.state == procs[p].state
    ensures Ready(procs[p := proc], queues, running)
  {
    Changed(procs, queues, p, proc);
    forall o | o in procs && o != IDLE
      ensures On(procs[p := proc], queues, o) <==> procs[p := proc][o].state == RUNNABLE && running != Some(o)
    {
      assert On(procs, queues, o) <==> procs[o].state == RUNNABLE && running != Some(o);
    }
  }

  /** Leaving it to run. */
  lemma {:induction false} DequeueReady(procs: Procs, queues: seq<RunQueue>, k: nat, p: nat)
    requires Ready(procs, queues, None) && k < |queues| && p in queues[k].list
    ensures p in procs && p != IDLE && procs[p].rq == Some(k) && procs[p].state == RUNNABLE
    ensures Ready(procs, Dequeued(queues, k, p), Some(p))
  {
    var queues' := Dequeued(queues, k, p);
    assert QueueOk(procs, queues[k], k);
    assert On(procs, queues, p);
    DelIs(queues[k].list, p);
    forall j: nat | j < |queues|
      ensures QueueOk(procs, queues'[j], j)
    {
      assert QueueOk(procs, queues[j], j);
    }
    forall o | o in procs && o != IDLE
      ensures On(procs, queues', o) <==> procs[o].state == RUNNABLE && o != p
    {
      assert On(procs, queues', o) <==> On(procs, queues, o) && o != p;
    }
  }

  /** The first process of the first queue that is not empty. */
  ghost function FirstOf(queues: seq<RunQueue>): Option<nat> {
    if queues == [] then None
    else if queues[0].list != [] then Some(queues[0].list[0])
    else FirstOf(queues[1..])
  }

  lemma {:induction false} FirstAt(queues: seq<RunQueue>, k: nat)
    requires k <= |queues| && forall j :: 0 <= j < k ==> queues[j].list == []
    ensures FirstOf(queues) ==
            if k == |queues| then None else if queues[k].list != [] then Some(queues[k].list[0])
              else FirstOf(queues[k + 1..])
  {
    if k > 0 {
      FirstAt(queues[1..], k - 1);
      assert k < |queues| ==> queues[1..][k..] == queues[k + 1..];
    }
  }

  /** Which is there if anybody could run. */
  lemma {:induction false} SomeFirst(procs: Procs, queues: seq<RunQueue>, p: nat)
    requires p in procs && On(procs, queues, p)
    ensures FirstOf(queues).Some?
  {
    SomeList(queues, procs[p].rq.value);
  }

  lemma {:induction false} SomeList(queues: seq<RunQueue>, k: nat)
    requires k < |queues| && queues[k].list != []
    ensures FirstOf(queues).Some?
  {
    if k > 0 {
      SomeList(queues[1..], k - 1);
    }
  }

  lemma {:induction false} FirstIn(queues: seq<RunQueue>) returns (k: nat)
    requires FirstOf(queues).Some?
    ensures k < |queues| && FirstOf(queues).value in queues[k].list
    ensures queues[k].list[0] == FirstOf(queues).value && forall j :: 0 <= j < k ==> queues[j].list == []
  {
    if queues[0].list != [] {
      k := 0;
    } else {
      k := FirstIn(queues[1..]);
      k := k + 1;
    }
  }

  lemma {:induction false} NoList(queues: seq<RunQueue>)
    requires FirstOf(queues) == None
    ensures forall j: nat :: j < |queues| ==> queues[j].list == []
  {
    forall j: nat | j < |queues|
      ensures queues[j].list == []
    {
      if queues[j].list != [] {
        SomeList(queues, j);
      }
    }
  }

  class Sched {
    var procs: Procs
    var queues: seq<RunQueue>
    var current: nat

    /** A process that is not the idle one is on exactly one queue, just when it could run and does not. */
    ghost predicate Valid()
      reads this
    {
      && Ready(procs, queues, Some(current)) && current in procs
      && (current != IDLE ==> procs[current].rq.Some?)
    }

    /** sched_init, with `levels` queues in place of four, and the idle process running. */
    constructor (levels: nat)
      requires levels > 0
      ensures Valid() && current == IDLE && procs.Keys == {IDLE}
      ensures |queues| == levels && queues[0].max_time_slice == 8
      ensures forall k: nat :: k + 1 < levels ==> queues[k + 1].max_time_slice == 2 * queues[k].max_time_slice
    {
      current, procs := IDLE, map[IDLE := Proc(RUNNABLE, 0, None, true)];
      queues := seq(levels, k requires 0 <= k < levels => RunQueue([], 0, Slice(k)));
    }

    /** sched_class_enqueue: MLFQ_enqueue, which calls RR_enqueue, but not for the idle process. */
    method Enqueue(p: nat)
      requires p in procs && |queues| > 0 && (procs[p].rq.Some? ==> procs[p].rq.value < |queues|)
      modifies this`procs, this`queues
      ensures if p == IDLE then procs == old(procs) && queues == old(queues)
              else Joined(old(procs), old(queues), procs, queues, p)
    {
      if p != IDLE {
        var k := 0;
        var proc := procs[p];
        if proc.rq.Some? && proc.time_slice == 0 {
          k := if proc.rq.value + 1 == |queues| then 0 else proc.rq.value + 1;
          if k == 0 {
            k := proc.rq.value;
          }
        }
        var q := queues[k];
        queues := queues[k := q.(list := q.list + [p], proc_num := q.proc_num + 1)];
        if proc.time_slice == 0 || proc.time_slice > q.max_time_slice {
          proc := proc.(time_slice := q.max_time_slice);
        }
        procs := procs[p := proc.(rq := Some(k))];
      }
    }

    /** MLFQ_pick_next. */
    method PickNext() returns (next: Option<nat>)
      ensures next == FirstOf(queues)
    {
      next := None;
      for k := 0 to |queues|
        invariant forall j :: 0 <= j < k ==> queues[j].list == []
      {
        FirstAt(queues, k);
        if queues[k].list != [] {
          return Some(queues[k].list[0]);
        }
      }
      FirstAt(queues, |queues|);
    }

    /** MLFQ_dequeue: the process leaves the queue that it says it is on. */
    method Dequeue(p: nat)
      requires p in procs && On(procs, queues, p)
      modifies this`queues
      ensures queues == Dequeued(old(queues), procs[p].rq.value, p)
      ensures var k := procs[p].rq.value; NoDup(old(queues)[k].list) && old(queues)[k].list[0] == p ==>
                queues[k].list == old(queues)[k].list[1..]
    {
      var k := procs[p].rq.value;
      queues := queues[k := queues[k].(list := Del(queues[k].list, p), proc_num := queues[k].proc_num - 1)];
    }

    // ---------- the steps of the kernel ----------

    /** wakeup_proc: also of the current process, which schedule has not seen yet. */
    method WakeupProc(p: nat)
      requires Valid() && p in procs && procs[p].state != ZOMBIE
      modifies this`procs, this`queues
      ensures Valid()
      ensures procs.Keys == old(procs).Keys && procs[p].state == RUNNABLE
      ensures p != IDLE && p != current ==> On(procs, queues, p)
      ensures WakeStep(old(Now()), Now(), p)
    {
      hide Ready, On;
      if procs[p].state != RUNNABLE {
        var proc := procs[p].(state := RUNNABLE);
        ghost var procs0, queues0 := procs, queues;
        CanWake(procs, queues, current, p, proc);
        procs := procs[p := proc];
        if p != current {
          Enqueue(p);
        }
        Woken(procs0, queues0, current, p, proc, procs, queues);
      }
      OnNow(procs, queues, current, p);
    }

    /** The first half of schedule: the current process goes back to a queue, if it could run. */
    method PutBack()
      requires Valid()
      modifies this`procs, this`queues
      ensures Ready(procs, queues, None)
      ensures procs.Keys == old(procs).Keys
      ensures forall p :: p in procs ==> procs[p].state == old(procs)[p].state
      ensures PutsBack(old(Now()), procs, queues)
    {
      hide On, ProcsOk, QueuesOk, RunnableOn;
      var proc := procs[current].(need_resched := false);
      ghost var procs0, queues0 := procs, queues;
      CanReturn(procs, queues, current, proc);
      procs := procs[current := proc];
      if procs[current].state == RUNNABLE {
        Enqueue(current);
      }
      Returned(procs0, queues0, current, proc, procs, queues);
    }

    /** schedule: the process that runs now is the first of the first queue, the idle process if there is none. */
    method Schedule()
      requires Valid()
      modifies this
      ensures Valid()
      ensures procs.Keys == old(procs).Keys && forall p :: p in procs ==> procs[p].state == old(procs)[p].state
      ensures if current == IDLE then forall p :: p in procs && p != IDLE ==> procs[p].state != RUNNABLE
              else procs[current].state == RUNNABLE
      ensures current != IDLE ==> forall j: nat :: j < |queues| && j < procs[current].rq.value ==> queues[j].list == []
      ensures old(queues)[0].list != [] ==> current == old(queues)[0].list[0]
      ensures old(queues)[0].list != [] ==> old(queues)[0].list[1..] <= queues[0].list
      ensures ScheduleStep(old(Now()), Now())
    {
      hide On, ProcsOk, QueuesOk, RunnableOn, Joined;
      HasLevels(procs, queues, Some(current));
      PutBack();
      ghost var mid := queues;
      BackList(old(Now()), procs, mid);
      var next := PickNext();
      if next.Some? {
        ghost var k := FirstIn(queues);
        DequeueReady(procs, queues, k, next.value);
        Dequeue(next.value);
        current := next.value;
        assert PicksAt(mid, queues, current, k);
      } else {
        NobodyReady(procs, queues);
        NoList(queues);
        current := IDLE;
      }
      assert PutsBack(old(Now()), procs, mid) && Picks(mid, queues, current);
    }

    /** sched_class_proc_tick of the current process: at the end of its slice it is to be rescheduled. */
    method ProcTick()
      requires Valid()
      modifies this`procs
      ensures Valid()
      ensures procs.Keys == old(procs).Keys && forall p :: p in procs && p != current ==> procs[p] == old(procs)[p]
      ensures current != IDLE && old(procs)[current].time_slice > 0 ==>
                procs[current].time_slice == old(procs)[current].time_slice - 1
      ensures current == IDLE || procs[current].time_slice == 0 ==> procs[current].need_resched
      ensures TickStep(old(Now()), Now())
    {
      var proc := procs[current];
      if current != IDLE {
        if proc.time_slice > 0 {
          proc := proc.(time_slice := proc.time_slice - 1);
        }
        if proc.time_slice == 0 {
          proc := proc.(need_resched := true);
        }
      } else {
        proc := proc.(need_resched := true);
      }
      assert current != IDLE ==> !On(procs, queues, current);
      NotIdle(procs, queues, Some(current));
      ChangedReady(procs, queues, Some(current), current, proc);
      procs := procs[current := proc];
    }

    /** The current process goes to sleep, or ends; it runs until it calls schedule. */
    method Stop(state: ProcState)
      requires Valid() && current != IDLE && state in {SLEEPING, ZOMBIE}
      modifies this`procs
      ensures Valid()
      ensures procs == old(procs)[current := old(procs)[current].(state := state)]
    {
      assert !On(procs, queues, current);
      ChangedReady(procs, queues, Some(current), current, procs[current].(state := state));
      procs := procs[current := procs[current].(state := state)];
    }

    /** do_fork, as far as the scheduler is concerned: the child gets half of the slice, and is woken up. */
    method Fork(p: nat)
      requires Valid() && p !in procs && p != IDLE
      modifies this`procs, this`queues
      ensures Valid()
      ensures procs.Keys == old(procs).Keys + {p} && On(procs, queues, p)
      ensures procs[current].time_slice == old(procs)[current].time_slice - old(procs)[current].time_slice / 2
      ensures ForkStep(old(Now()), Now(), p)
    {
      hide Ready, On, Joined;
      var parent := procs[current];
      var half := parent.time_slice / 2;
      CurrentOff(procs, queues, current);
      ChangedReady(procs, queues, Some(current), current, parent.(time_slice := parent.time_slice - half));
      procs := procs[current := parent.(time_slice := parent.time_slice - half)];
      var child := Proc(UNINIT, half, None, false);
      Born(procs, queues, Some(current), p, child);
      procs := procs[p := child];
      assert procs[p := child.(state := RUNNABLE)] ==
             old(procs)[current := parent.(time_slice := parent.time_slice - half)][p := child.(state := RUNNABLE)];
      WakeupProc(p);
      JoinedOnly(old(Now()), Now(), p);
    }

    /** do_wait has found a process that has ended. */
    method Reap(p: nat)
      requires Valid() && p in procs && procs[p].state == ZOMBIE && p != current && p != IDLE
      modifies this`procs
      ensures Valid()
      ensures procs == old(procs) - {p}
    {
      Reaped(procs, queues, Some(current), p);
      procs := procs - {p};
    }

    ghost function Now(): Snap
      reads this
    {
      Snap(procs, queues, current)
    }

    /** One step of the kernel. */
    method Do(step: Step)
      requires Valid()
      modifies this
      ensures Valid()
      ensures SchedStep(old(Now()), step, Now())
    {
      hide Ready, On, WakeStep, ScheduleStep, TickStep, ForkStep;
      match step {
        case DoWakeup(p) =>
          if p in procs && procs[p].state != ZOMBIE {
            WakeupProc(p);
          }
        case DoSchedule => Schedule();
        case DoTick => ProcTick();
        case DoStop(state) =>
          if current != IDLE && state in {SLEEPING, ZOMBIE} {
            Stop(state);
          }
        case DoFork(p) =>
          if p !in procs && p != IDLE {
            Fork(p);
          }
        case DoReap(p) =>
          if p in procs && procs[p].state == ZOMBIE && p != current && p != IDLE {
            Reap(p);
          }
      }
    }

    /**
     Over every run: a process is on exactly one queue, once, just when it could run and does not, and what is
     on a queue has a slice within its level. The steps are those of `SchedRun`.
     */
    method Run(steps: seq<Step>) returns (ghost trace: seq<Snap>)
      requires Valid()
      modifies this
      ensures Valid()
      ensures SchedRun(trace, steps) && trace[0] == old(Now()) && trace[|steps|] == Now()
      ensures forall i :: 0 <= i <= |steps| ==> SnapOk(trace[i])
      ensures forall p, k: nat, j: nat :: k < |queues| && j < |queues| && p in queues[k].list && p in queues[j].list ==>
                k == j
      ensures forall p :: p in procs && p != IDLE && p != current ==>
                (procs[p].state == RUNNABLE <==> exists k: nat :: k < |queues| && p in queues[k].list)
      ensures forall k: nat :: k < |queues| ==> queues[k].proc_num == |queues[k].list| && NoDup(queues[k].list)
      ensures forall k: nat, p :: k < |queues| && p in queues[k].list ==>
                p in procs && 1 <= procs[p].time_slice <= queues[k].max_time_slice
    {
      trace := Steps(steps);
      forall k: nat | k < |queues|
        ensures QueueOk(procs, queues[k], k)
      {
      }
      forall p | p in procs && p != IDLE && p != current
        ensures procs[p].state == RUNNABLE <==> exists k: nat :: k < |queues| && p in queues[k].list
      {
        assert On(procs, queues, p) <==> procs[p].state == RUNNABLE;
      }
    }

    method Steps(steps: seq<Step>) returns (ghost trace: seq<Snap>)
      requires Valid()
      modifies this
      ensures Valid()
      ensures SchedRun(trace, steps) && trace[0] == old(Now()) && trace[|steps|] == Now()
      ensures forall i :: 0 <= i <= |steps| ==> SnapOk(trace[i])
    {
      hide Ready, SchedStep;
      trace := [Now()];
      for k := 0 to |steps|
        invariant Valid()
        invariant SchedRun(trace, steps[..k]) && trace[0] == old(Now()) && trace[k] == Now()
        invariant forall i :: 0 <= i <= k ==> SnapOk(trace[i])
      {
        Do(steps[k]);
        trace := trace + [Now()];
      }
      assert steps[..|steps|] == steps;
    }
  }

  /** Sleeping and ending are `DoStop`; a call of schedule may come at any time. */
  datatype Step =
    | DoWakeup(p: nat)
    | DoSchedule
    | DoTick
    | DoStop(state: ProcState)
    | DoFork(p: nat)
    | DoReap(p: nat)

  // ---------- what the steps do ----------

  datatype Snap = Snap(procs: Procs, queues: seq<RunQueue>, current: nat)

  ghost predicate SnapOk(a: Snap) {
    && Ready(a.procs, a.queues, Some(a.current)) && a.current in a.procs
    && (a.current != IDLE ==> a.procs[a.current].rq.Some?)
  }

  ghost predicate WakeStep(a: Snap, b: Snap, p: nat)
    requires p in a.procs
  {
    var procs := a.procs[p := a.procs[p].(state := RUNNABLE)];
    && b.current == a.current
    && if a.procs[p].state == RUNNABLE || p == a.current || p == IDLE then b.procs == procs && b.queues == a.queues
       else Joined(procs, a.queues, b.procs, b.queues, p)
  }

  /** The current process is not to be rescheduled any more, and back on a queue if it could run. */
  ghost predicate PutsBack(a: Snap, procs': Procs, queues': seq<RunQueue>) {
    && a.current in a.procs
    && var procs := a.procs[a.current := a.procs[a.current].(need_resched := false)];
       if a.current == IDLE || a.procs[a.current].state != RUNNABLE then procs' == procs && queues' == a.queues
       else Joined(procs, a.queues, procs', queues', a.current)
  }

  /** The first process of the queue at `k`, all queues before which are empty, leaves it to run. */
  ghost predicate PicksAt(queues: seq<RunQueue>, queues': seq<RunQueue>, next: nat, k: nat) {
    && k < |queues| && (forall j :: 0 <= j < k ==> queues[j].list == []) && queues[k].list != []
    && next == queues[k].list[0]
    && queues' == queues[k := queues[k].(list := queues[k].list[1..], proc_num := queues[k].proc_num - 1)]
  }

  ghost predicate Picks(queues: seq<RunQueue>, queues': seq<RunQueue>, next: nat) {
    if forall j :: 0 <= j < |queues| ==> queues[j].list == [] then next == IDLE && queues' == queues
    else exists k: nat :: PicksAt(queues, queues', next, k)
  }

  ghost predicate ScheduleStep(a: Snap, b: Snap) {
    exists mid: seq<RunQueue> :: PutsBack(a, b.procs, mid) && Picks(mid, b.queues, b.current)
  }

  ghost predicate TickStep(a: Snap, b: Snap) {
    && b.queues == a.queues && b.current == a.current && a.current in a.procs
    && var proc := a.procs[a.current];
       var left := if a.current != IDLE && proc.time_slice > 0 then proc.time_slice - 1 else proc.time_slice;
       var due := a.current == IDLE || left == 0 || proc.need_resched;
       b.procs == a.procs[a.current := proc.(time_slice := left, need_resched := due)]
  }

  /** The child gets half of the slice of its parent, and is the last one on the first level. */
  ghost predicate ForkStep(a: Snap, b: Snap, p: nat) {
    && a.current in a.procs
    && var parent := a.procs[a.current];
       var half := parent.time_slice / 2;
       var procs := a.procs[a.current := parent.(time_slice := parent.time_slice - half)]
                    [p := Proc(RUNNABLE, half, None, false)];
       b.current == a.current && Joined(procs, a.queues, b.procs, b.queues, p)
  }

  lemma {:induction false} JoinedOnly(a: Snap, b: Snap, p: nat)
    requires ForkStep(a, b, p) && p !in a.procs
    ensures b.procs.Keys == a.procs.Keys + {p} && b.procs[p].state == RUNNABLE
    ensures b.procs[a.current].time_slice == a.procs[a.current].time_slice - a.procs[a.current].time_slice / 2
  {
  }

  /** What a step does: nothing, if it is not possible. */
  ghost predicate SchedStep(a: Snap, step: Step, b: Snap) {
    match step
    case DoWakeup(p) => if p in a.procs && a.procs[p].state != ZOMBIE then WakeStep(a, b, p) else b == a
    case DoSchedule => ScheduleStep(a, b)
    case DoTick => TickStep(a, b)
    case DoStop(state) =>
      b == if a.current != IDLE && a.current in a.procs && state in {SLEEPING, ZOMBIE}
           then a.(procs := a.procs[a.current := a.procs[a.current].(state := state)]) else a
    case DoFork(p) => if p !in a.procs && p != IDLE then ForkStep(a, b, p) else b == a
    case DoReap(p) =>
      b == if p in a.procs && a.procs[p].state == ZOMBIE && p != a.current && p != IDLE
           then a.(procs := a.procs - {p}) else a
  }

  ghost predicate SchedRun(trace: seq<Snap>, steps: seq<Step>) {
    |trace| == |steps| + 1 && forall i :: 0 <= i < |steps| ==> SchedStep(trace[i], steps[i], trace[i + 1])
  }

  // ---------- the order of the processes ----------

  ghost predicate Before(s: seq<nat>, p: nat, q: nat) {
    exists i, j :: 0 <= i < j < |s| && s[i] == p && s[j] == q
  }

  /** A process joins a list at its end, or the first one leaves it. */
  ghost predicate Moves(s: seq<nat>, s': seq<nat>) {
    s' == s || (s' != [] && s'[|s'| - 1] !in s && s' == s + [s'[|s'| - 1]]) || (s != [] && s' == s[1..])
  }

  lemma {:induction false} MovesOrder(s: seq<nat>, s': seq<nat>, p: nat, q: nat)
    requires Moves(s, s') && NoDup(s) && Before(s, p, q) && p in s'
    ensures Before(s', p, q) && NoDup(s')
  {
    var i, j :| 0 <= i < j < |s| && s[i] == p && s[j] == q;
    if s != [] && s' == s[1..] {
      var n :| 0 <= n < |s'| && s'[n] == p;
      assert s[n + 1] == p;
      assert s'[i - 1] == p && s'[j - 1] == q;
    } else {
      assert s'[i] == p && s'[j] == q;
    }
  }

  /** A queue after a step: at most one process joins it, and then at most one leaves. */
  lemma {:induction false} StepMoves(a: Snap, step: Step, b: Snap, k: nat) returns (mid: seq<nat>)
    requires SnapOk(a) && SchedStep(a, step, b) && k < |a.queues|
    ensures |b.queues| == |a.queues| && NoDup(a.queues[k].list)
    ensures Moves(a.queues[k].list, mid) && Moves(mid, b.queues[k].list) && a.queues[k].list <= mid
    ensures step.DoSchedule? && k == 0 && mid != [] ==> b.current == mid[0] && b.queues[k].list == mid[1..]
    ensures !step.DoSchedule? ==> b.queues[k].list == mid
  {
    hide Ready, On;
    ListedReady(a, k);
    mid := b.queues[k].list;
    if step.DoSchedule? {
      var queues: seq<RunQueue> :| PutsBack(a, b.procs, queues) && Picks(queues, b.queues, b.current);
      mid := queues[k].list;
    }
  }

  /** Who is on a queue is there once, and neither runs nor is new. */
  lemma {:induction false} ListedReady(a: Snap, k: nat)
    requires SnapOk(a) && k < |a.queues|
    ensures NoDup(a.queues[k].list) && a.current !in a.queues[k].list
    ensures forall o :: o in a.queues[k].list ==> o in a.procs && a.procs[o].state == RUNNABLE
  {
    assert QueueOk(a.procs, a.queues[k], k);
    forall o | o in a.queues[k].list
      ensures o != a.current && a.procs[o].state == RUNNABLE
    {
      assert On(a.procs, a.queues, o);
    }
  }

  /** In a run, whoever is in front of another one on a queue stays there until one of them leaves it. */
  lemma {:induction false} RunOrder(trace: seq<Snap>, steps: seq<Step>, k: nat, p: nat, q: nat)
    requires SchedRun(trace, steps) && forall i :: 0 <= i <= |steps| ==> SnapOk(trace[i])
    requires forall i :: 0 <= i <= |steps| ==>
      k < |trace[i].queues| && p in trace[i].queues[k].list && q in trace[i].queues[k].list
    requires Before(trace[0].queues[k].list, p, q)
    ensures forall i :: 0 <= i <= |steps| ==> Before(trace[i].queues[k].list, p, q)
  {
    hide SchedStep, SnapOk, Before, Moves;
    var n := 0;
    while n < |steps|
      invariant n <= |steps|
      invariant forall i :: 0 <= i <= n ==> Before(trace[i].queues[k].list, p, q)
    {
      var mid := StepMoves(trace[n], steps[n], trace[n + 1], k);
      MovesOrder(trace[n].queues[k].list, mid, p, q);
      MovesOrder(mid, trace[n + 1].queues[k].list, p, q);
      n := n + 1;
    }
  }

  /** How often schedule is called. */
  ghost function Schedules(steps: seq<Step>): nat {
    if steps == [] then 0
    else Schedules(steps[..|steps| - 1]) + if steps[|steps| - 1].DoSchedule? then 1 else 0
  }

  lemma {:induction false} SchedulesNext(steps: seq<Step>, n: nat)
    requires n < |steps|
    ensures Schedules(steps[..n + 1]) == Schedules(steps[..n]) + if steps[n].DoSchedule? then 1 else 0
  {
    var first := steps[..n + 1];
    assert first[..|first| - 1] == steps[..n];
  }

  lemma {:induction false} SchedulesLess(steps: seq<Step>, n: nat)
    requires n <= |steps|
    ensures Schedules(steps[..n]) <= Schedules(steps)
    decreases |steps|
  {
    if n < |steps| {
      var first := steps[..|steps| - 1];
      SchedulesLess(first, n);
      assert first[..n] == steps[..n];
    } else {
      assert steps[..n] == steps;
    }
  }

  /** The place `n` of the first queue. */
  ghost predicate Waits(a: Snap, p: nat, n: int) {
    |a.queues| > 0 && 0 <= n < |a.queues[0].list| && a.queues[0].list[n] == p
  }

  /** A call of schedule takes the first one, and all others move up. */
  lemma {:induction false} StepWaits(a: Snap, step: Step, b: Snap, p: nat, n: int)
    requires SnapOk(a) && SchedStep(a, step, b) && Waits(a, p, n)
    ensures if !step.DoSchedule? then Waits(b, p, n) else if n > 0 then Waits(b, p, n - 1) else b.current == p
  {
    hide SnapOk, SchedStep;
    var mid := StepMoves(a, step, b, 0);
    assert mid[n] == p;
  }

  /**
   In a run, the process behind `n` others on the first level is the one that runs after `n` + 1 calls of schedule.
   */
  lemma {:induction false} RunsInTurn(trace: seq<Snap>, steps: seq<Step>, n: nat)
    requires SchedRun(trace, steps) && forall i :: 0 <= i <= |steps| ==> SnapOk(trace[i])
    requires |trace[0].queues| > 0 && n < |trace[0].queues[0].list|
    requires steps != [] && steps[|steps| - 1].DoSchedule? && Schedules(steps) == n + 1
    ensures trace[|steps|].current == trace[0].queues[0].list[n]
  {
    hide SchedStep, SnapOk;
    var p, m, last := trace[0].queues[0].list[n], 0, |steps| - 1;
    assert steps[..0] == [];
    while m < last
      invariant m <= last && Waits(trace[m], p, n - Schedules(steps[..m]))
    {
      SchedulesNext(steps, m);
      SchedulesLess(steps[..last], m + 1);
      assert steps[..last][..m + 1] == steps[..m + 1];
      StepWaits(trace[m], steps[m], trace[m + 1], p, n - Schedules(steps[..m]));
      m := m + 1;
    }
    StepWaits(trace[last], steps[last], trace[last + 1], p, 0);
  }

  /** The idle process is on no queue. */
  lemma {:induction false} NotIdle(procs: Procs, queues: seq<RunQueue>, running: Option<nat>)
    requires Ready(procs, queues, running)
    ensures !On(procs, queues, IDLE)
  {
    forall k: nat | k < |queues|
      ensures IDLE !in queues[k].list
    {
      assert QueueOk(procs, queues[k], k);
    }
  }

  lemma {:induction false} Born(procs: Procs, queues: seq<RunQueue>, running: Option<nat>, p: nat, child: Proc)
    requires Ready(procs, queues, running) && p !in procs && child.rq == None && child.time_slice >= 0
    requires child.state != RUNNABLE
    ensures Ready(procs[p := child], queues, running)
  {
    var procs' := procs[p := child];
    forall j: nat | j < |queues|
      ensures QueueOk(procs', queues[j], j)
    {
      assert QueueOk(procs, queues[j], j);
    }
    forall o | o in procs' && o != IDLE
      ensures On(procs', queues, o) <==> procs'[o].state == RUNNABLE && running != Some(o)
    {
      assert o != p ==> (On(procs', queues, o) <==> On(procs, queues, o));
    }
  }

  lemma {:induction false} Reaped(procs: Procs, queues: seq<RunQueue>, running: Option<nat>, p: nat)
    requires Ready(procs, queues, running) && p in procs && procs[p].state == ZOMBIE && p != IDLE
    ensures Ready(procs - {p}, queues, running)
  {
    assert !On(procs, queues, p);
    forall j: nat | j < |queues|
      ensures QueueOk(procs - {p}, queues[j], j)
    {
      NotListed(procs, queues, p, j);
      assert QueueOk(procs, queues[j], j);
    }
    forall o | o in procs - {p} && o != IDLE
      ensures On(procs - {p}, queues, o) <==> procs[o].state == RUNNABLE && running != Some(o)
    {
      assert On(procs - {p}, queues, o) <==> On(procs, queues, o);
    }
  }

  lemma {:induction false} NobodyReady(procs: Procs, queues: seq<RunQueue>)
    requires Ready(procs, queues, None) && FirstOf(queues) == None
    ensures Ready(procs, queues, Some(IDLE)) && IDLE in procs
    ensures forall p :: p in procs && p != IDLE ==> procs[p].state != RUNNABLE
  {
    forall p | p in procs && p != IDLE
      ensures procs[p].state != RUNNABLE
    {
      if On(procs, queues, p) {
        SomeFirst(procs, queues, p);
      }
    }
  }

  lemma {:induction false} OnNow(procs: Procs, queues: seq<RunQueue>, current: nat, p: nat)
    requires Ready(procs, queues, Some(current)) && p in procs && procs[p].state == RUNNABLE
    ensures p != IDLE && p != current ==> On(procs, queues, p)
  {
  }

  lemma {:induction false} HasLevels(procs: Procs, queues: seq<RunQueue>, running: Option<nat>)
    requires Ready(procs, queues, running)
    ensures |queues| > 0
  {
  }

  /** The current process is on no queue. */
  lemma {:induction false} CurrentOff(procs: Procs, queues: seq<RunQueue>, current: nat)
    requires Ready(procs, queues, Some(current)) && current in procs
    ensures !On(procs, queues, current) && ProcOk(procs[current], |queues|)
  {
    if current == IDLE {
      NotIdle(procs, queues, Some(current));
    }
  }

  lemma {:induction false} CanWake(procs: Procs, queues: seq<RunQueue>, current: nat, p: nat, proc: Proc)
    requires Ready(procs, queues, Some(current)) && p in procs && proc == procs[p].(state := RUNNABLE)
    ensures |queues| > 0 && (proc.rq.Some? ==> proc.rq.value < |queues|)
  {
  }

  /** The queues after wakeup_proc. */
  lemma {:induction false} Woken(procs: Procs, queues: seq<RunQueue>, current: nat, p: nat, proc: Proc, procs': Procs,
                                 queues': seq<RunQueue>)
    requires Ready(procs, queues, Some(current)) && p in procs
    requires procs[p].state != RUNNABLE && proc == procs[p].(state := RUNNABLE)
    requires if p == current || p == IDLE then procs' == procs[p := proc] && queues' == queues
             else Joined(procs[p := proc], queues, procs', queues', p)
    ensures Ready(procs', queues', Some(current))
  {
    if p == current || p == IDLE {
      ChangedReady(procs, queues, Some(current), p, proc);
    } else {
      Changed(procs, queues, p, proc);
      JoinedReady(procs[p := proc], queues, procs', queues', Some(current), p);
    }
  }

  lemma {:induction false} CanReturn(procs: Procs, queues: seq<RunQueue>, current: nat, proc: Proc)
    requires Ready(procs, queues, Some(current)) && current in procs && proc == procs[current].(need_resched := false)
    ensures |queues| > 0 && (proc.rq.Some? ==> proc.rq.value < |queues|)
  {
  }

  /** The queues after the first half of schedule. */
  lemma {:induction false} Returned(procs: Procs, queues: seq<RunQueue>, current: nat, proc: Proc, procs': Procs,
                                    queues': seq<RunQueue>)
    requires Ready(procs, queues, Some(current)) && current in procs && proc == procs[current].(need_resched := false)
    requires if current == IDLE || proc.state != RUNNABLE then procs' == procs[current := proc] && queues' == queues
             else Joined(procs[current := proc], queues, procs', queues', current)
    ensures Ready(procs', queues', None)
  {
    ChangedReady(procs, queues, Some(current), current, proc);
    if current != IDLE && proc.state == RUNNABLE {
      JoinedReady(procs[current := proc], queues, procs', queues', None, current);
    } else {
      BackIdle(procs[current := proc], queues, current);
    }
  }

  lemma {:induction false} BackIdle(procs: Procs, queues: seq<RunQueue>, current: nat)
    requires Ready(procs, queues, Some(current)) && current in procs
    requires current == IDLE || procs[current].state != RUNNABLE
    ensures Ready(procs, queues, None)
  {
    forall o | o in procs && o != IDLE
      ensures On(procs, queues, o) <==> procs[o].state == RUNNABLE
    {
      assert On(procs, queues, o) <==> procs[o].state == RUNNABLE && o != current;
    }
  }

  /** Going back, a process is behind those that were on the first queue. */
  lemma {:induction false} BackList(a: Snap, procs: Procs, queues: seq<RunQueue>)
    requires PutsBack(a, procs, queues) && |a.queues| > 0
    ensures |queues| == |a.queues| && a.queues[0].list <= queues[0].list
  {
  }

  /** max_time_slice of a level: 8 << level. */
  function Slice(level: nat): (r: int)
    ensures r > 0
  {
    if level == 0 then 8 else 2 * Slice(level - 1)
  }
}