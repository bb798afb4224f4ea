/**
 A mailbox and its close protocol (kern/sync/mbox.c). Each method is what a process does between two points
 where it sleeps; any processes may do these in any order. The record of a caller that sleeps in the mailbox
 is what is on its stack.
 */
module Mailbox {
  import opened Defs
  import opened Lists

  datatype MboxState = CLOSED | OPENED | CLOSING

  datatype Msg = Msg(pid: int, bytes: nat)

  /**
   A process that sleeps inside send_msg or recv_msg, or is about to go on there: `woken` is the wakeup flag of
   its own kind, in place of WT_INTERRUPTED; `opening` is the number of the opening that it came into.
   */
  datatype Caller = Caller(sending: bool, msg: Msg, max_bytes: nat, runnable: bool, woken: bool, ghost opening: nat)

  datatype Outcome = Asleep | Sent | Received(msg: Msg) | TooBig | Interrupted

  type Callers = map<nat, Caller>

  ghost function Woken(callers: Callers, sending: bool): set<nat> {
    set p | p in callers && callers[p].sending == sending && callers[p].woken
  }

  /** A wait queue: its processes are callers of that kind that have not been woken. */
  ghost predicate QueueOk(queue: seq<nat>, callers: Callers, sending: bool) {
    NoDup(queue) && forall p :: p in queue ==> p in callers && callers[p].sending == sending && !callers[p].woken
  }

  /** Who sleeps is in the queue of his kind. */
  ghost predicate SleepersOk(senders: seq<nat>, receivers: seq<nat>, callers: Callers) {
    forall p :: p in callers && !callers[p].runnable ==> p in if callers[p].sending then senders else receivers
  }

  /**
   No wake-up is lost: while anybody waits, somebody has been woken for each of the `n` that are there, up to `more`.
   */
  ghost predicate NoneLost(n: int, queue: seq<nat>, callers: Callers, sending: bool, more: int) {
    queue != [] ==> n <= |Woken(callers, sending)| + more
  }

  ghost predicate AllFrom(callers: Callers, opening: nat) {
    forall p :: p in callers ==> callers[p].opening == opening
  }

  // ---------- callers ----------

  lemma {:induction false} SleeperAdded(callers: Callers, p: nat, c: Caller, sending: bool)
    requires p !in callers && !c.woken
    ensures Woken(callers[p := c], sending) == Woken(callers, sending)
    ensures |callers[p := c]| == |callers| + 1
  {
    assert callers[p := c].Keys == callers.Keys + {p};
  }

  lemma {:induction false} WokenRemoved(callers: Callers, p: nat, sending: bool)
    requires p in callers
    ensures |Woken(callers - {p}, sending)| ==
            |Woken(callers, sending)| - if callers[p].sending == sending && callers[p].woken then 1 else 0
    ensures |callers - {p}| == |callers| - 1
  {
    assert Woken(callers - {p}, sending) == Woken(callers, sending) - {p};
    assert (callers - {p}).Keys == callers.Keys - {p};
  }

  lemma {:induction false} WokenNow(callers: Callers, p: nat, sending: bool)
    requires p in callers && !callers[p].woken
    ensures var c := callers[p];
            |Woken(callers[p := c.(runnable := true, woken := true)], sending)| ==
            |Woken(callers, sending)| + if c.sending == sending then 1 else 0
    ensures |callers[p := callers[p].(runnable := true, woken := true)]| == |callers|
  {
    var after := callers[p := callers[p].(runnable := true, woken := true)];
    assert after.Keys == callers.Keys;
    if callers[p].sending == sending {
      assert Woken(after, sending) == Woken(callers, sending) + {p};
    } else {
      assert Woken(after, sending) == Woken(callers, sending);
    }
  }

  /** Making a caller run changes nothing else. */
  lemma {:induction false} MayRun(callers: Callers, p: nat)
    requires p in callers
    ensures var after := callers[p := callers[p].(runnable := true)];
            && |after| == |callers|
            && (forall queue, sending :: QueueOk(queue, callers, sending) ==> QueueOk(queue, after, sending))
            && (forall n, queue, sending, more ::
                  NoneLost(n, queue, callers, sending, more) ==> NoneLost(n, queue, after, sending, more))
  {
    var after := callers[p := callers[p].(runnable := true)];
    assert after.Keys == callers.Keys;
    assert Woken(after, true) == Woken(callers, true) && Woken(after, false) == Woken(callers, false);
  }

  class Mbox {
    var inuse: int
    var state: MboxState
    var max_slots: int
    var slots: int
    var msgs: seq<Msg>
    var senders: seq<nat>
    var receivers: seq<nat>
    var callers: Callers
    /** Who has received a message and is about to store it. */
    var storing: map<nat, Msg>
    /** The openings that the messages in the queue, and those that are being stored, were sent in. */
    ghost var born: seq<nat>
    ghost var taken: map<nat, nat>
    /** How often it has been opened, and given back to the free list. */
    ghost var openings: nat
    ghost var frees: nat

    /** With `running` processes inside that do not sleep, `r` and `s` of which have been woken. */
    ghost predicate Inside(running: nat, r: int, s: int)
      reads `inuse, `state, `max_slots, `slots, `msgs, `senders, `receivers, `callers, `openings, `frees
    {
      && inuse == |callers| + running
      && QueueOk(senders, callers, true) && QueueOk(receivers, callers, false)
      && SleepersOk(senders, receivers, callers)
      && openings == frees + (if state == CLOSED then 0 else 1)
      && AllFrom(callers, openings)
      && match state
         case CLOSED => inuse == 0 && msgs == [] && senders == receivers == [] && slots == max_slots == 0
         case OPENED => slots == |msgs| && max_slots > 0
                        && NoneLost(slots, receivers, callers, false, r)
                        && NoneLost(max_slots - slots, senders, callers, true, s)
         case CLOSING => msgs == [] && senders == receivers == []
    }

    ghost predicate TagsOk()
      reads `msgs, `callers, `storing, `born, `taken
    {
      && |born| == |msgs| && taken.Keys == storing.Keys && (forall p :: p in storing ==> p !in callers)
    }

    ghost predicate Valid()
      reads this
    {
      Inside(0, 0, 0) && TagsOk() && (state == CLOSING ==> inuse > 0)
    }

    constructor ()
      ensures Valid() && state == CLOSED && openings == 0 && storing == map[]
    {
      inuse, state, max_slots, slots, msgs, senders, receivers, callers := 0, CLOSED, 0, 0, [], [], [], map[];
      storing, born, taken, openings, frees := map[], [], map[], 0, 0;
    }

    /** new_mbox, for a mailbox from the free list. */
    method Open(max_slots: int)
      requires Valid() && state == CLOSED && max_slots > 0
      modifies this
      ensures Valid()
      ensures state == OPENED && this.max_slots == max_slots && slots == 0 && msgs == [] && callers == map[]
      ensures openings == old(openings) + 1 && frees == old(frees)
      ensures storing == old(storing) && taken == old(taken) && born == []
      ensures Now() == old(Now()).(state := OPENED, openings := old(openings) + 1, max_slots := max_slots)
    {
      assert |callers| == 0;
      state, this.max_slots := OPENED, max_slots;
      openings := openings + 1;
    }

    /** mbox_free, with what it asserts. */
    method MboxFree()
      requires state == CLOSING && inuse == 0 && msgs == [] && senders == [] && receivers == []
      modifies this`state, this`max_slots, this`slots, this`frees
      ensures state == CLOSED && max_slots == slots == 0 && frees == old(frees) + 1
    {
      state := CLOSED;
      max_slots, slots := 0, 0;
      frees := frees + 1;
    }

    lemma {:induction false} InsideOpen(running: nat, r: int, s: int)
      requires Inside(running, r, s) && state == OPENED
      ensures slots == |msgs|
      ensures forall r', s' :: r <= r' && s <= s' ==> Inside(running, r', s')
      ensures slots == 0 ==> Inside(running, 0, s)
      ensures max_slots <= slots ==> Inside(running, r, 0)
    {
    }

    /** wakeup_first of the receivers. */
    method WakeReceiver(ghost running: nat, ghost r: int, ghost s: int)
      requires Inside(running, r, s) && state == OPENED
      modifies this`receivers, this`callers
      ensures old(TagsOk()) ==> TagsOk()
      ensures Inside(running, r - 1, s)
      ensures FirstWoken(old(receivers), old(callers), receivers, callers)
    {
      if receivers != [] {
        var p := receivers[0];
        WokenNow(callers, p, true);
        WokenNow(callers, p, false);
        receivers := receivers[1..];
        callers := callers[p := callers[p].(runnable := true, woken := true)];
      }
    }

    /** wakeup_first of the senders. */
    method WakeSender(ghost running: nat, ghost r: int, ghost s: int)
      requires Inside(running, r, s) && state == OPENED
      modifies this`senders, this`callers
      ensures old(TagsOk()) ==> TagsOk()
      ensures Inside(running, r, s - 1)
      ensures FirstWoken(old(senders), old(callers), senders, callers)
    {
      if senders != [] {
        var p := senders[0];
        WokenNow(callers, p, true);
        WokenNow(callers, p, false);
        senders := senders[1..];
        callers := callers[p := callers[p].(runnable := true, woken := true)];
      }
    }

    /** add_msg. */
    method AddMsg(msg: Msg, ghost tag: nat, append: bool, ghost running: nat, ghost r: int, ghost s: int)
      requires Inside(running, r, s) && TagsOk() && state == OPENED
      modifies this`slots, this`msgs, this`receivers, this`callers, this`born
      ensures Inside(running, r, s - 1)
      ensures TagsOk()
      ensures slots == old(slots) + 1
      ensures born == if append then old(born) + [tag] else [tag] + old(born)
      ensures msgs == if append then old(msgs) + [msg] else [msg] + old(msgs)
      ensures FirstWoken(old(receivers), old(callers), receivers, callers)
    {
      slots := slots + 1;
      msgs := if append then msgs + [msg] else [msg] + msgs;
      born := if append then born + [tag] else [tag] + born;
      WakeReceiver(running, r + 1, s - 1);
    }

    /** pick_msg. */
    method PickMsg(max_bytes: nat, ghost running: nat, ghost r: int, ghost s: int) returns (m: Option<Msg>)
      requires Inside(running, r, s) && TagsOk() && state == OPENED && slots > 0
      modifies this`slots, this`msgs, this`senders, this`callers, this`born
      ensures m == if max_bytes < old(msgs)[0].bytes then None else Some(old(msgs)[0])
      ensures m == None ==> Inside(running, r, s) && msgs == old(msgs) && born == old(born) && slots == old(slots)
      ensures m.Some? ==> Inside(running, r - 1, s) && msgs == old(msgs)[1..] && slots == old(slots) - 1
      ensures m.Some? ==> |old(born)| > 0 && born == old(born)[1..]
      ensures TagsOk()
      ensures m == None ==> senders == old(senders) && callers == old(callers)
      ensures m.Some? ==> FirstWoken(old(senders), old(callers), senders, callers)
    {
      var msg := msgs[0];
      if max_bytes < msg.bytes {
        return None;
      }
      slots := slots - 1;
      msgs, born := msgs[1..], born[1..];
      WakeSender(running, r - 1, s + 1);
      m := Some(msg);
    }

    /** The end of send_msg and recv_msg: the last one to leave a closing mailbox gives it back. */
    method Leave()
      requires Inside(1, 0, 0) && TagsOk() && state != CLOSED
      modifies this`inuse, this`state, this`max_slots, this`slots, this`frees
      ensures Valid()
      ensures Now() == if old(state) == CLOSING && callers == map[] then GivenBack(old(Now())) else old(Now())
    {
      inuse := inuse - 1;
      assert |callers| == 0 <==> callers == map[];
      if state != OPENED {
        if inuse == 0 {
          MboxFree();
        }
      }
    }

    /** wait_current_set: the process goes to sleep in the queue of its kind. */
    method Sleep(p: nat, c: Caller)
      requires Inside(1, 0, 0) && TagsOk() && state == OPENED && p !in callers && p !in storing && c.opening == openings
      requires !c.woken && !c.runnable
      requires if c.sending then max_slots <= slots else slots <= 0
      modifies this`senders, this`receivers, this`callers
      ensures Valid()
      ensures callers == old(callers)[p := c]
      ensures senders == old(senders) + if c.sending then [p] else []
      ensures receivers == old(receivers) + if c.sending then [] else [p]
    {
      SleeperAdded(callers, p, c, true);
      SleeperAdded(callers, p, c, false);
      if c.sending {
        senders := senders + [p];
      } else {
        receivers := receivers + [p];
      }
      callers := callers[p := c];
    }

    /** The loop of send_msg up to where it sleeps or leaves. */
    method TrySend(p: nat, msg: Msg, ghost s: int) returns (o: Outcome)
      requires Inside(1, 0, s) && TagsOk() && 0 <= s <= 1 && state == OPENED && p !in callers && p !in storing
      modifies this
      ensures Valid()
      ensures SendStep(old(Now()), Now(), p, msg, o)
    {
      hide Inside, TagsOk, NoneLost;
      InsideOpen(1, 0, s);
      if max_slots <= slots {
        Sleep(p, Caller(true, msg, 0, false, false, openings));
        return Asleep;
      }
      AddMsg(msg, openings, true, 1, 0, s);
      InsideOpen(1, 0, s - 1);
      Leave();
      return Sent;
    }

    lemma {:induction false} TagCount()
      requires TagsOk()
      ensures |born| == |msgs|
    {
    }

    /** The receiver has got the message. */
    method StartStoring(p: nat, msg: Msg, ghost tag: nat)
      requires TagsOk() && p !in callers
      modifies this`storing, this`taken
      ensures TagsOk() && storing == old(storing)[p := msg] && taken == old(taken)[p := tag]
    {
      storing, taken := storing[p := msg], taken[p := tag];
      assert taken.Keys == storing.Keys;
    }

    /** The receiver has stored it, or cannot. */
    method StopStoring(p: nat) returns (ghost tag: nat)
      requires TagsOk() && p in storing
      modifies this`storing, this`taken
      ensures TagsOk() && storing == old(storing) - {p} && p in old(taken) && taken == old(taken) - {p}
      ensures tag == old(taken)[p]
    {
      tag := taken[p];
      storing, taken := storing - {p}, taken - {p};
      assert taken.Keys == storing.Keys;
    }

    /** The end of recv_msg; a message that is too big is left to another receiver. */
    method Take(p: nat, max_bytes: nat, ghost r: int) returns (o: Outcome)
      requires Inside(1, r, 0) && TagsOk() && 0 <= r <= 1 && state == OPENED && slots > 0
      requires p !in callers && p !in storing
      modifies this
      ensures Valid()
      ensures old(msgs) != [] && RecvStep(old(Now()), Now(), p, max_bytes, o)
    {
      hide FirstWoken, Inside, TagsOk, Valid, NoneLost;
      TagCount();
      InsideOpen(1, r, 0);
      ghost var tag := born[0];
      var m := PickMsg(max_bytes, 1, r, 0);
      if m == None {
        WakeReceiver(1, r, 0);
        o := TooBig;
      } else {
        o := Received(m.value);
        StartStoring(p, m.value, tag);
      }
      InsideOpen(1, r - 1, 0);
      Leave();
    }

    /** The loop of recv_msg up to where it sleeps or leaves. */
    method TryRecv(p: nat, max_bytes: nat, ghost r: int) returns (o: Outcome)
      requires Inside(1, r, 0) && TagsOk() && 0 <= r <= 1 && state == OPENED && p !in callers && p !in storing
      modifies this
      ensures Valid()
      ensures RecvStep(old(Now()), Now(), p, max_bytes, o)
    {
      hide Inside;
      InsideOpen(1, r, 0);
      if slots == 0 {
        Sleep(p, Caller(false, Msg(0, 0), max_bytes, false, false, openings));
        o := Asleep;
      } else {
        o := Take(p, max_bytes, r);
      }
    }

    // ---------- the steps of the processes ----------

    /** send_msg of a process that has found the mailbox open. */
    method Send(p: nat, msg: Msg) returns (o: Outcome)
      requires Valid() && state == OPENED && p !in callers && p !in storing
      modifies this
      ensures Valid()
      ensures storing == old(storing) && taken == old(taken) && max_slots == old(max_slots)
      ensures slots == old(slots) + if o == Sent then 1 else 0
      ensures born == if o == Sent then old(born) + [openings] else old(born)
      ensures o == if old(slots) < old(max_slots) then Sent else Asleep
      ensures msgs == if o == Sent then old(msgs) + [msg] else old(msgs)
      ensures state == OPENED && openings == old(openings) && frees == old(frees)
      ensures o == Sent ==> FirstWoken(old(receivers), old(callers), receivers, callers) && senders == old(senders)
      ensures o == Asleep ==> senders == old(senders) + [p] && receivers == old(receivers)
      ensures o == Asleep ==> callers == old(callers)[p := Caller(true, msg, 0, false, false, openings)]
      ensures SendStep(old(Now()), Now(), p, msg, o)
    {
      inuse := inuse + 1;
      o := TrySend(p, msg, 0);
    }

    /** recv_msg of such a process. */
    method Recv(p: nat, max_bytes: nat) returns (o: Outcome)
      requires Valid() && state == OPENED && p !in callers && p !in storing
      modifies this
      ensures Valid()
      ensures storing == if o.Received? then old(storing)[p := o.msg] else old(storing)
      ensures o.Received? ==> old(born) != [] && taken == old(taken)[p := old(born)[0]] && born == old(born)[1..]
      ensures !o.Received? ==> taken == old(taken) && born == old(born)
      ensures max_slots == old(max_slots) && slots == old(slots) - if o.Received? then 1 else 0
      ensures o == if old(msgs) == [] then Asleep
                   else if max_bytes < old(msgs)[0].bytes then TooBig else Received(old(msgs)[0])
      ensures msgs == if o.Received? then old(msgs)[1..] else old(msgs)
      ensures state == OPENED && openings == old(openings) && frees == old(frees)
      ensures o.Received? ==> FirstWoken(old(senders), old(callers), senders, callers) && receivers == old(receivers)
      ensures o == TooBig ==> FirstWoken(old(receivers), old(callers), receivers, callers) && senders == old(senders)
      ensures o == Asleep ==> receivers == old(receivers) + [p] && senders == old(senders)
      ensures o == Asleep ==> callers == old(callers)[p := Caller(false, Msg(0, 0), max_bytes, false, false, openings)]
      ensures RecvStep(old(Now()), Now(), p, max_bytes, o)
    {
      inuse := inuse + 1;
      o := TryRecv(p, max_bytes, 0);
    }

    lemma {:induction false} WithoutQueue(queue: seq<nat>, sending: bool, p: nat)
      requires QueueOk(queue, callers, sending) && p in callers
      ensures QueueOk(Without(queue, p), callers - {p}, sending)
      ensures forall q :: q in Without(queue, p) <==> q in queue && q != p
      ensures callers[p].woken || callers[p].sending != sending ==> Without(queue, p) == queue
    {
      if p in queue {
        DelIs(queue, p);
      }
    }

    /** A process that runs again takes itself off its queue, if it is still in it. */
    method WakeUp(p: nat) returns (c: Caller)
      requires Valid() && p in callers && callers[p].runnable
      modifies this`senders, this`receivers, this`callers
      ensures c == old(callers)[p] && callers == old(callers) - {p}
      ensures senders == Without(old(senders), p) && receivers == Without(old(receivers), p)
      ensures c.woken ==> senders == old(senders) && receivers == old(receivers)
      ensures state != CLOSED && c.opening == openings
      ensures !c.woken || state != OPENED ==> Inside(1, 0, 0)
      ensures c.woken && c.sending ==> Inside(1, 0, 1)
      ensures c.woken && !c.sending ==> Inside(1, 1, 0)
      ensures TagsOk() && p !in storing
    {
      hide QueueOk, Woken;
      c := callers[p];
      WokenRemoved(callers, p, true);
      WokenRemoved(callers, p, false);
      assert state != CLOSED;
      WithoutQueue(senders, true, p);
      WithoutQueue(receivers, false, p);
      if p in senders {
        senders := Del(senders, p);
      }
      if p in receivers {
        receivers := Del(receivers, p);
      }
      callers := callers - {p};
    }

    /** A sleeping caller goes on when it is scheduled: never in a later opening than the one it came into. */
    method Resume(p: nat) returns (o: Outcome)
      requires Valid() && p in callers && callers[p].runnable
      modifies this
      ensures Valid()
      ensures old(state) != CLOSED && old(callers)[p].opening == old(openings) == openings
      ensures o == Interrupted <==> old(state) != OPENED || !old(callers)[p].woken
      ensures o == Interrupted ==> msgs == old(msgs) && callers == old(callers) - {p}
      ensures o == Interrupted ==> senders == Without(old(senders), p) && receivers == Without(old(receivers), p)
      ensures o == Interrupted ==> storing == old(storing) && taken == old(taken) && born == old(born)
      ensures frees == old(frees) + if old(state) == CLOSING && callers == map[] then 1 else 0
      ensures state == if old(state) == CLOSING && callers == map[] then CLOSED else old(state)
      ensures old(state) == OPENED && old(callers)[p].woken && old(callers)[p].sending ==>
        && (o == Sent <==> old(slots) < old(max_slots)) && (o == Sent || o == Asleep)
        && msgs == old(msgs) + (if o == Sent then [old(callers)[p].msg] else [])
        && (o == Asleep ==> callers == old(callers)[p := Caller(true, old(callers)[p].msg, 0, false, false, openings)])
        && (o == Asleep ==> senders == old(senders) + [p] && receivers == old(receivers))
        && (o == Sent ==> FirstWoken(old(receivers), old(callers) - {p}, receivers, callers) && senders == old(senders))
      ensures old(state) == OPENED && old(callers)[p].woken && !old(callers)[p].sending ==>
        && o == (if old(msgs) == [] then Asleep
                 else if old(callers)[p].max_bytes < old(msgs)[0].bytes then TooBig else Received(old(msgs)[0]))
        && msgs == (if o.Received? then old(msgs)[1..] else old(msgs))
        && storing == (if o.Received? then old(storing)[p := old(msgs)[0]] else old(storing))
        && (o == Asleep ==>
              callers == old(callers)[p := Caller(false, Msg(0, 0), old(callers)[p].max_bytes, false, false, openings)])
        && (o == Asleep ==> receivers == old(receivers) + [p] && senders == old(senders))
        && (o == TooBig ==>
              FirstWoken(old(receivers), old(callers) - {p}, receivers, callers) && senders == old(senders))
        && (o.Received? ==>
              FirstWoken(old(senders), old(callers) - {p}, senders, callers) && receivers == old(receivers))
      ensures ResumeStep(old(Now()), Now(), p, o)
    {
      hide Inside, TagsOk, Valid;
      var c := WakeUp(p);
      if state != OPENED || !c.woken {
        Leave();
        return Interrupted;
      }
      if c.sending {
        o := TrySend(p, c.msg, 1);
      } else {
        o := TryRecv(p, c.max_bytes, 1);
      }
    }

    /** A timer or a kill makes a sleeping caller run, without taking it off its queue. */
    method Interrupt(p: nat)
      requires Valid() && p in callers
      modifies this`callers
      ensures Valid()
      ensures callers == old(callers)[p := old(callers)[p].(runnable := true)]
    {
      hide NoneLost, NoDup;
      ghost var before := callers;
      MayRun(callers, p);
      callers := callers[p := callers[p].(runnable := true)];
    }

    /**
     The end of ipc_mbox_recv: the message has been stored, or it goes back to the front, if the mailbox with that id is
     open then.
     */
    method Finish(p: nat, stored: bool)
      requires Valid() && p in storing
      modifies this`slots, this`msgs, this`receivers, this`callers, this`born, this`storing, this`taken
      ensures Valid()
      ensures storing == old(storing) - {p} && p in old(taken) && taken == old(taken) - {p}
      ensures !stored && state == OPENED ==>
        msgs == [old(storing)[p]] + old(msgs) && born == [old(taken)[p]] + old(born) && slots == old(slots) + 1
      ensures !stored && state == OPENED ==> FirstWoken(old(receivers), old(callers), receivers, callers)
      ensures stored || state != OPENED ==> msgs == old(msgs) && born == old(born) && slots == old(slots)
      ensures stored || state != OPENED ==> receivers == old(receivers) && callers == old(callers)
      ensures FinishStep(old(Now()), Now(), p, stored)
    {
      hide Inside, TagsOk, FirstWoken, NoneLost, QueueOk, SleepersOk;
      var msg := storing[p];
      ghost var tag;
      tag := StopStoring(p);
      if !stored && state == OPENED {
        AddMsg(msg, tag, false, 0, 0, 0);
        InsideOpen(0, 0, -1);
      }
    }

    /** wakeup_queue with WT_INTERRUPTED: all in the queue may run, and are off it. */
    static method WakeQueue(queue: seq<nat>, callers: Callers) returns (after: Callers)
      requires forall p :: p in queue ==> p in callers
      ensures after.Keys == callers.Keys
      ensures forall p :: p in callers ==>
                after[p] == if p in queue then callers[p].(runnable := true) else callers[p]
    {
      after := callers;
      for i := 0 to |queue|
        invariant after.Keys == callers.Keys
        invariant forall p :: p in callers ==>
                    after[p] == if p in queue[..i] then callers[p].(runnable := true) else callers[p]
      {
        after := after[queue[i] := after[queue[i]].(runnable := true)];
      }
      assert queue[..|queue|] == queue;
    }

    /** Everybody in the queues is woken up with WT_INTERRUPTED. */
    method WakeAll()
      requires QueueOk(senders, callers, true) && QueueOk(receivers, callers, false)
      requires SleepersOk(senders, receivers, callers) && AllFrom(callers, openings)
      modifies this`senders, this`receivers, this`callers
      ensures senders == receivers == []
      ensures callers.Keys == old(callers).Keys && |callers| == |old(callers)|
      ensures forall p :: p in callers ==> callers[p].opening == openings
      ensures forall p :: p in callers ==> callers[p] == old(callers)[p].(runnable := true)
    {
      ghost var before := callers;
      callers := WakeQueue(senders, callers);
      callers := WakeQueue(receivers, callers);
      assert callers.Keys == before.Keys;
      assert |callers| == |callers.Keys| && |before| == |before.Keys|;
      senders, receivers := [], [];
    }

    /** The messages go, and who sleeps is woken up. */
    method Flush()
      requires Valid() && state == OPENED
      modifies this`state, this`msgs, this`born, this`senders, this`receivers, this`callers
      ensures Inside(0, 0, 0)
      ensures TagsOk()
      ensures state == CLOSING && msgs == [] && born == [] && senders == receivers == []
      ensures AllRun(old(callers), callers)
    {
      hide NoneLost;
      state := CLOSING;
      msgs, born := [], [];
      WakeAll();
    }

    /** ipc_mbox_free: the mailbox is given back at once, or by the last caller that leaves it. */
    method Close() returns (ret: int)
      requires Valid()
      modifies this
      ensures Valid()
      ensures ret == if old(state) == OPENED then 0 else -E_INVAL
      ensures ret == 0 ==> msgs == [] && senders == receivers == [] && AllRun(old(callers), callers)
      ensures ret == 0 ==> state == if callers == map[] then CLOSED else CLOSING
      ensures frees == old(frees) + if ret == 0 && state == CLOSED then 1 else 0
      ensures openings == old(openings) && storing == old(storing) && taken == old(taken)
      ensures born == if ret == 0 then [] else old(born)
      ensures ret == 0 && state == CLOSING ==> slots == old(slots) && max_slots == old(max_slots)
      ensures CloseStep(old(Now()), Now())
    {
      if state != OPENED {
        return -E_INVAL;
      }
      Flush();
      hide QueueOk, SleepersOk, NoneLost, TagsOk;
      assert |callers| == 0 <==> callers == map[];
      if inuse == 0 {
        MboxFree();
      }
      return 0;
    }

    /** While the mailbox is open, a message and a waiting receiver mean that a receiver has been woken for it. */
    lemma {:induction false} NoLostMessage() returns (p: nat)
      requires Valid() && state == OPENED && msgs != [] && receivers != []
      ensures p in callers && !callers[p].sending && callers[p].woken && callers[p].runnable
    {
      assert Woken(callers, false) != {};
      p :| p in Woken(callers, false);
    }

    /** The same for free slots and senders. */
    lemma {:induction false} NoLostSlot() returns (p: nat)
      requires Valid() && state == OPENED && slots < max_slots && senders != []
      ensures p in callers && callers[p].sending && callers[p].woken && callers[p].runnable
    {
      assert Woken(callers, true) != {};
      p :| p in Woken(callers, true);
    }

    lemma {:induction false} Tagged()
      requires Valid()
      ensures storing.Keys == taken.Keys && (forall p :: p in storing ==> p !in callers)
      ensures state == CLOSED ==> callers == map[] && born == []
    {
      assert |callers| == 0 <==> callers == map[];
    }

    lemma {:induction false} TidyNow()
      requires Valid()
      ensures Tidy(Now())
    {
      hide NoneLost;
      assert |callers| == 0 <==> callers == map[];
    }

    ghost function Now(): Box
      reads this
    {
      Box(state, openings, frees, max_slots, slots, msgs, born, senders, receivers, callers, storing, taken)
    }

    /** One step of any process. */
    method Do(a: Action) returns (out: Option<Outcome>)
      requires Valid()
      modifies this
      ensures Valid()
      ensures openings == old(openings) + if a.DoOpen? && old(state) == CLOSED && a.max_slots > 0 then 1 else 0
      ensures frees == old(frees) + if old(state) != CLOSED && state == CLOSED then 1 else 0
      ensures old(state) != CLOSED && state == CLOSED ==> callers == map[]
      ensures BoxStep(old(Now()), a, Now(), out)
    {
      hide Inside, TagsOk, Valid, SendStep, RecvStep, ResumeStep, FinishStep;
      Tagged();
      out := None;
      match a {
        case DoOpen(n) =>
          if state == CLOSED && n > 0 {
            Open(n);
          }
        case DoSend(p, msg) =>
          if state == OPENED && p !in callers && p !in storing {
            var o := Send(p, msg);
            out := Some(o);
          }
        case DoRecv(p, max_bytes) =>
          if state == OPENED && p !in callers && p !in storing {
            var o := Recv(p, max_bytes);
            out := Some(o);
          }
        case DoResume(p) =>
          if p in callers && callers[p].runnable {
            var o := Resume(p);
            out := Some(o);
          }
        case DoInterrupt(p) =>
          if p in callers {
            Interrupt(p);
          }
        case DoFinish(p, stored) =>
          if p in storing {
            Finish(p, stored);
          }
        case DoClose => var ret := Close();
      }
    }

    /**
     Over every run: each opening ends at most once, with nobody inside, and only then the next one begins; and the
     steps are those of `BoxRun`.
     */
    method Run(actions: seq<Action>) returns (ghost trace: seq<Box>, outs: seq<Option<Outcome>>)
      requires Valid()
      modifies this
      ensures Valid()
      ensures openings == frees + if state == CLOSED then 0 else 1
      ensures state == CLOSED ==> callers == map[] && inuse == 0
      ensures forall p :: p in callers ==> callers[p].opening == openings
      ensures BoxRun(trace, actions, outs) && trace[0] == old(Now()) && trace[|actions|] == Now()
      ensures forall i :: 0 <= i <= |actions| ==> Tidy(trace[i])
    {
      hide BoxStep, Tidy, TagsOk, NoneLost;
      TidyNow();
      trace, outs := [Now()], [];
      for k := 0 to |actions|
        invariant Valid()
        invariant BoxRun(trace, actions[..k], outs) && trace[0] == old(Now()) && trace[k] == Now()
        invariant forall i :: 0 <= i <= k ==> Tidy(trace[i])
      {
        var out := Do(actions[k]);
        TidyNow();
        trace, outs := trace + [Now()], outs + [out];
      }
      assert actions[..|actions|] == actions;
      assert |callers| == 0 <==> callers == map[];
    }
  }

  datatype Action =
    | DoOpen(max_slots: int)
    | DoSend(p: nat, msg: Msg)
    | DoRecv(p: nat, max_bytes: nat)
    | DoResume(p: nat)
    | DoInterrupt(p: nat)
    | DoFinish(p: nat, stored: bool)
    | DoClose

  // ---------- what the steps do ----------

  /** What there is of a mailbox. */
  datatype Box = Box(state: MboxState, openings: nat, frees: nat, max_slots: int, slots: int, msgs: seq<Msg>,
                     born: seq<nat>, senders: seq<nat>, receivers: seq<nat>, callers: Callers, storing: map<nat, Msg>,
                     taken: map<nat, nat>)

  /** The first of a queue has been woken up, if there is one. */
  ghost predicate FirstWoken(queue: seq<nat>, callers: Callers, queue': seq<nat>, callers': Callers) {
    && callers'.Keys == callers.Keys && queue' == (if queue == [] then [] else queue[1..])
    && forall p :: p in callers ==>
        callers'[p] == if queue != [] && p == queue[0] then callers[p].(runnable := true, woken := true) else callers[p]
  }

  ghost predicate AllRun(callers: Callers, callers': Callers) {
    callers'.Keys == callers.Keys && forall p :: p in callers ==> callers'[p] == callers[p].(runnable := true)
  }

  ghost function GivenBack(a: Box): Box {
    a.(state := CLOSED, max_slots := 0, slots := 0, frees := a.frees + 1)
  }

  ghost predicate SendStep(a: Box, b: Box, p: nat, msg: Msg, o: Outcome) {
    if a.slots < a.max_slots then
      && o == Sent && FirstWoken(a.receivers, a.callers, b.receivers, b.callers)
      && b == a.(slots := a.slots + 1, msgs := a.msgs + [msg], born := a.born + [a.openings], receivers := b.receivers,
                 callers := b.callers)
    else
      && o == Asleep
      && b == a.(senders := a.senders + [p], callers := a.callers[p := Caller(true, msg, 0, false, false, a.openings)])
  }

  ghost predicate RecvStep(a: Box, b: Box, p: nat, max_bytes: nat, o: Outcome) {
    if a.msgs == [] then
      && o == Asleep
      && b == a.(receivers := a.receivers + [p],
                 callers := a.callers[p := Caller(false, Msg(0, 0), max_bytes, false, false, a.openings)])
    else if max_bytes < a.msgs[0].bytes then
      && o == TooBig && FirstWoken(a.receivers, a.callers, b.receivers, b.callers)
      && b == a.(receivers := b.receivers, callers := b.callers)
    else
      && o == Received(a.msgs[0]) && FirstWoken(a.senders, a.callers, b.senders, b.callers) && a.born != []
      && b == a.(slots := a.slots - 1, msgs := a.msgs[1..], born := a.born[1..], senders := b.senders,
                 callers := b.callers, storing := a.storing[p := a.msgs[0]], taken := a.taken[p := a.born[0]])
  }

  /** A list without `p`. */
  function Without(s: seq<nat>, p: nat): seq<nat> {
    if p in s then Del(s, p) else s
  }

  /** A sleeper that was woken up tries again; otherwise it leaves. */
  ghost predicate ResumeStep(a: Box, b: Box, p: nat, o: Outcome)
    requires p in a.callers
  {
    var c, left := a.callers[p], a.(callers := a.callers - {p});
    if a.state == OPENED && c.woken then
      if c.sending then SendStep(left, b, p, c.msg, o) else RecvStep(left, b, p, c.max_bytes, o)
    else
      var gone := left.(senders := Without(a.senders, p), receivers := Without(a.receivers, p));
      o == Interrupted && b == if a.state == CLOSING && gone.callers == map[] then GivenBack(gone) else gone
  }

  /** The message goes back to the front of the queue, or is stored. */
  ghost predicate FinishStep(a: Box, b: Box, p: nat, stored: bool)
    requires p in a.storing && p in a.taken
  {
    var done := a.(storing := a.storing - {p}, taken := a.taken - {p});
    if stored || a.state != OPENED then b == done
    else
      && FirstWoken(a.receivers, a.callers, b.receivers, b.callers)
      && b == done.(slots := a.slots + 1, msgs := [a.storing[p]] + a.msgs, born := [a.taken[p]] + a.born,
                    receivers := b.receivers, callers := b.callers)
  }

  ghost predicate CloseStep(a: Box, b: Box) {
    if a.state != OPENED then b == a
    else
      && AllRun(a.callers, b.callers)
      && var closing := a.(state := CLOSING, msgs := [], born := [], senders := [], receivers := [],
                           callers := b.callers);
         b == if b.callers == map[] then GivenBack(closing) else closing
  }

  /** What a step does to the mailbox: nothing, if it is not possible. */
  ghost predicate BoxStep(a: Box, act: Action, b: Box, out: Option<Outcome>) {
    match act
    case DoOpen(n) =>
      out == None
      && b == if a.state == CLOSED && n > 0 then a.(state := OPENED, openings := a.openings + 1, max_slots := n) else a
    case DoSend(p, msg) =>
      if a.state != OPENED || p in a.callers || p in a.storing then b == a && out == None
      else out.Some? && SendStep(a, b, p, msg, out.value)
    case DoRecv(p, max_bytes) =>
      if a.state != OPENED || p in a.callers || p in a.storing then b == a && out == None
      else out.Some? && RecvStep(a, b, p, max_bytes, out.value)
    case DoResume(p) =>
      if p !in a.callers || !a.callers[p].runnable then b == a && out == None
      else out.Some? && ResumeStep(a, b, p, out.value)
    case DoInterrupt(p) =>
      out == None
      && b == if p in a.callers then a.(callers := a.callers[p := a.callers[p].(runnable := true)]) else a
    case DoFinish(p, stored) =>
      out == None && if p in a.storing && p in a.taken then FinishStep(a, b, p, stored) else b == a
    case DoClose => out == None && CloseStep(a, b)
  }

  ghost predicate BoxRun(trace: seq<Box>, actions: seq<Action>, outs: seq<Option<Outcome>>) {
    && |trace| == |actions| + 1 && |outs| == |actions|
    && forall i :: 0 <= i < |actions| ==> BoxStep(trace[i], actions[i], trace[i + 1], outs[i])
  }

  /** A mailbox in use has slots, and one that is not in use has nothing in it. */
  ghost predicate Tidy(a: Box) {
    && |a.born| == |a.msgs| && (a.state == OPENED ==> a.slots == |a.msgs| && a.max_slots > 0)
    && (a.state == CLOSED ==> a.slots == 0 && a.msgs == [] && a.callers == map[])
    && (forall p :: p in a.callers ==> a.callers[p].opening == a.openings)
    && (forall p :: p in a.storing <==> p in a.taken)
  }

  ghost function SnapOf(a: Box): Snap {
    Snap(a.state, a.openings, a.max_slots, a.slots, a.born, a.taken)
  }

  /** What the messages do in a run. */
  lemma {:induction false} BoxSnaps(trace: seq<Box>, actions: seq<Action>, outs: seq<Option<Outcome>>)
    returns (snaps: seq<Snap>)
    requires BoxRun(trace, actions, outs) && forall i :: 0 <= i < |trace| ==> Tidy(trace[i])
    ensures SnapRun(snaps, actions) && forall i :: 0 <= i < |trace| ==> snaps[i] == SnapOf(trace[i])
  {
    hide BoxStep, SnapStep, Tidy;
    snaps := seq(|trace|, i requires 0 <= i < |trace| => SnapOf(trace[i]));
    forall i | 0 <= i < |actions|
      ensures SnapStep(snaps[i], actions[i], snaps[i + 1])
    {
      StepSnaps(trace[i], actions[i], trace[i + 1], outs[i]);
    }
  }

  lemma {:induction false} StepSnaps(a: Box, act: Action, b: Box, out: Option<Outcome>)
    requires BoxStep(a, act, b, out) && Tidy(a)
    ensures SnapStep(SnapOf(a), act, SnapOf(b))
  {
    hide FirstWoken, AllRun;
  }

  // ---------- where messages end up ----------

  /** What matters for the messages: the openings they were sent in, in the queue and on the way to user memory. */
  datatype Snap = Snap(state: MboxState, openings: nat, max_slots: int, slots: int, born: seq<nat>, taken: map<nat,
                       nat>)

  /** A message goes back into the queue. */
  predicate PutsBack(s: Snap, a: Action) {
    a.DoFinish? && !a.stored && a.p in s.taken && s.state == OPENED
  }

  ghost predicate SnapStep(s: Snap, a: Action, t: Snap) {
    if PutsBack(s, a) then
      t == s.(slots := s.slots + 1, born := [s.taken[a.p]] + s.born, taken := s.taken - {a.p})
    else
      || (t.openings == s.openings + 1 && t.born == [] && t.slots == 0 < t.max_slots)
      || (t.openings == s.openings
          && (t.state == OPENED ==>
                s.state == OPENED && t.max_slots == s.max_slots && (t.slots <= s.slots || t.slots <= t.max_slots))
          && (t.born in {[], s.born, s.born + [s.openings]} || (s.born != [] && t.born == s.born[1..])))
  }

  ghost predicate SnapRun(trace: seq<Snap>, actions: seq<Action>) {
    |trace| == |actions| + 1 && forall i :: 0 <= i < |actions| ==> SnapStep(trace[i], actions[i], trace[i + 1])
  }

  /** All messages in the queue were sent in the present opening. */
  predicate OwnMessages(s: Snap) {
    forall i :: 0 <= i < |s.born| ==> s.born[i] == s.openings
  }

  /** A message of an earlier opening goes back. */
  predicate Crosses(s: Snap, a: Action) {
    PutsBack(s, a) && s.taken[a.p] != s.openings
  }

  /** There are not more messages than slots. */
  predicate InSlots(s: Snap) {
    s.state == OPENED ==> s.slots <= s.max_slots
  }

  /** A message goes back after its slot has been used again. */
  predicate Overfills(s: Snap, a: Action) {
    PutsBack(s, a) && s.slots >= s.max_slots
  }

  lemma {:induction false} StepCrosses(s: Snap, a: Action, t: Snap)
    requires SnapStep(s, a, t) && OwnMessages(s)
    ensures OwnMessages(t) <==> !Crosses(s, a)
  {
    if PutsBack(s, a) {
      assert t.born[0] == s.taken[a.p];
      assert forall i :: 1 <= i < |t.born| ==> t.born[i] == s.born[i - 1];
    }
  }

  /** Messages stay in their opening, in a run, if and only if no put-back comes from an earlier one. */
  lemma {:induction false} OwnMessagesIff(trace: seq<Snap>, actions: seq<Action>)
    requires SnapRun(trace, actions) && OwnMessages(trace[0])
    ensures (forall i :: 0 <= i < |trace| ==> OwnMessages(trace[i])) <==>
            (forall i :: 0 <= i < |actions| ==> !Crosses(trace[i], actions[i]))
  {
    hide SnapStep, OwnMessages, Crosses;
    var n := 0;
    while n < |actions| && !Crosses(trace[n], actions[n])
      invariant n <= |actions|
      invariant forall i :: 0 <= i <= n ==> OwnMessages(trace[i])
      invariant forall i :: 0 <= i < n ==> !Crosses(trace[i], actions[i])
    {
      StepCrosses(trace[n], actions[n], trace[n + 1]);
      n := n + 1;
    }
    if n < |actions| {
      StepCrosses(trace[n], actions[n], trace[n + 1]);
      assert !OwnMessages(trace[n + 1]);
    }
  }

  lemma {:induction false} StepOverfills(s: Snap, a: Action, t: Snap)
    requires SnapStep(s, a, t) && InSlots(s)
    ensures InSlots(t) <==> !Overfills(s, a)
  {
  }

  /** There are never more messages than slots, in a run, if and only if no put-back finds all slots in use. */
  lemma {:induction false} InSlotsIff(trace: seq<Snap>, actions: seq<Action>)
    requires SnapRun(trace, actions) && InSlots(trace[0])
    ensures (forall i :: 0 <= i < |trace| ==> InSlots(trace[i])) <==>
            (forall i :: 0 <= i < |actions| ==> !Overfills(trace[i], actions[i]))
  {
    hide SnapStep, InSlots, Overfills;
    var n := 0;
    while n < |actions| && !Overfills(trace[n], actions[n])
      invariant n <= |actions|
      invariant forall i :: 0 <= i <= n ==> InSlots(trace[i])
      invariant forall i :: 0 <= i < n ==> !Overfills(trace[i], actions[i])
    {
      StepOverfills(trace[n], actions[n], trace[n + 1]);
      n := n + 1;
    }
    if n < |actions| {
      StepOverfills(trace[n], actions[n], trace[n + 1]);
      assert !InSlots(trace[n + 1]);
    }
  }

  /** A receiver puts its message back after the mailbox has been closed and opened again. */
  method Crossing(msg: Msg) returns (mbox: Mbox)
    ensures mbox.Valid() && mbox.openings == 2 && mbox.msgs == [msg] && mbox.born == [1]
    ensures !OwnMessages(SnapOf(mbox.Now()))
  {
    hide Mbox.Inside, Mbox.TagsOk;
    mbox := new Mbox();
    mbox.Open(1);
    var o := mbox.Send(1, msg);
    o := mbox.Recv(2, msg.bytes);
    var ret := mbox.Close();
    mbox.Open(1);
    mbox.Finish(2, false);
    assert mbox.born[0] == 1;
  }

  /** A receiver puts its message back after another one has been sent. */
  method Overfilling(msg: Msg, next: Msg) returns (mbox: Mbox)
    ensures mbox.Valid() && mbox.max_slots == 1 && mbox.msgs == [msg, next] && mbox.slots == 2
    ensures !InSlots(SnapOf(mbox.Now()))
  {
    hide Mbox.Inside, Mbox.TagsOk;
    mbox := new Mbox();
    mbox.Open(1);
    var o := mbox.Send(1, msg);
    o := mbox.Recv(2, msg.bytes);
    o := mbox.Send(1, next);
    mbox.Finish(2, false);
  }
}
