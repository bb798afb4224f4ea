/**
 Semaphores and the dining philosophers (kern/sync/sem.c, kern/sync/check_sync.c), for any number of
 philosophers from two on. Every statement outside of `up` and `down` may be interleaved with the others.
 */
module Philosophers {
  import opened Lists

  /** A kernel semaphore; a process that is woken up by `up` has been granted its `down`. */
  datatype Sem = Sem(value: int, queue: seq<nat>)

  function Raised(s: Sem): Sem {
    if s.queue == [] then s.(value := s.value + 1) else s.(queue := s.queue[1..])
  }

  function Lowered(s: Sem, p: nat): Sem {
    if s.value > 0 then s.(value := s.value - 1) else s.(queue := s.queue + [p])
  }

  datatype Phase = THINKING | HUNGRY | EATING

  /**
   Where a philosopher is: before down(&mutex) or waiting in it, in the critical section of
   phi_take_forks_sema (`Take…`) or phi_put_forks_sema (`Put…`) before the next statement, before down(&s[i])
   or waiting in it, or eating. `…Up` is the call of up in phi_test_sema.
   */
  datatype Place =
    | Think | TakeWait | TakeSet | TakeTest | TakeTestUp | TakeUp | ForkDown | ForkWait
    | Eat | PutWait | PutSet | PutLeft | PutLeftUp | PutRight | PutRightUp | PutUp

  datatype Table = Table(n: nat, phase: seq<Phase>, mutex: Sem, s: seq<Sem>, place: seq<Place>)

  ghost predicate Shape(t: Table) {
    t.n >= 2 && |t.phase| == |t.s| == |t.place| == t.n
  }

  function Left(n: nat, i: nat): (j: nat)
    requires i < n
    ensures j < n
  {
    if i == 0 then n - 1 else i - 1
  }

  function Right(n: nat, i: nat): (j: nat)
    requires i < n
    ensures j < n
  {
    if i == n - 1 then 0 else i + 1
  }

  /** As the source computes them. */
  lemma {:induction false} NeighboursAre(n: int, i: int)
    requires 0 <= i < n
    ensures Left(n, i) == (i - 1 + n) % n && Right(n, i) == (i + 1) % n
  {
    Rest(i - 1 + n, n, if i == 0 then 0 else 1);
    Rest(i + 1, n, if i == n - 1 then 1 else 0);
  }

  lemma {:induction false} Rest(a: int, n: int, q: int)
    requires n > 0 && q in {0, 1} && 0 <= a - q * n < n
    ensures a % n == a - q * n
  {
  }

  // ---------- the steps ----------

  predicate Waiting(p: Place) {
    p == TakeWait || p == ForkWait || p == PutWait
  }

  /** The place behind the `down` that has been granted. */
  function Granted(p: Place): Place {
    match p
    case Think => TakeSet
    case TakeWait => TakeSet
    case ForkDown => Eat
    case ForkWait => Eat
    case Eat => PutSet
    case PutWait => PutSet
    case _ => p
  }

  function Blocked(p: Place): Place {
    match p
    case Think => TakeWait
    case ForkDown => ForkWait
    case Eat => PutWait
    case _ => p
  }

  /** The first in the queue goes on. */
  function Wake(place: seq<Place>, queue: seq<nat>): seq<Place>
    requires queue != [] ==> queue[0] < |place|
  {
    if queue == [] then place else place[queue[0] := Granted(place[queue[0]])]
  }

  function DownMutex(t: Table, i: nat): Table
    requires Shape(t) && i < t.n
  {
    t.(mutex := Lowered(t.mutex, i),
       place := t.place[i := if t.mutex.value > 0 then Granted(t.place[i]) else Blocked(t.place[i])])
  }

  function UpMutex(t: Table, i: nat, next: Place): Table
    requires Shape(t) && i < t.n && (t.mutex.queue != [] ==> t.mutex.queue[0] < t.n)
  {
    t.(mutex := Raised(t.mutex), place := Wake(t.place[i := next], t.mutex.queue))
  }

  function DownFork(t: Table, i: nat): Table
    requires Shape(t) && i < t.n
  {
    t.(s := t.s[i := Lowered(t.s[i], i)],
       place := t.place[i := if t.s[i].value > 0 then Granted(t.place[i]) else Blocked(t.place[i])])
  }

  function UpFork(t: Table, i: nat, j: nat, next: Place): Table
    requires Shape(t) && i < t.n && j < t.n && (t.s[j].queue != [] ==> t.s[j].queue[0] < t.n)
  {
    t.(s := t.s[j := Raised(t.s[j])], place := Wake(t.place[i := next], t.s[j].queue))
  }

  /** The condition of phi_test_sema. */
  predicate MayEat(t: Table, i: nat)
    requires Shape(t) && i < t.n
  {
    t.phase[i] == HUNGRY && t.phase[Left(t.n, i)] != EATING && t.phase[Right(t.n, i)] != EATING
  }

  /** phi_test_sema for `j`, up to its call of up. */
  function Test(t: Table, i: nat, j: nat, yes: Place, no: Place): Table
    requires Shape(t) && i < t.n && j < t.n
  {
    if MayEat(t, j) then t.(phase := t.phase[j := EATING], place := t.place[i := yes])
    else t.(place := t.place[i := no])
  }

  /** The queues hold philosophers. */
  ghost predicate QueuesOk(t: Table)
    requires Shape(t)
  {
    && InRange(t.mutex.queue, t.n)
    && (forall j: nat :: j < t.n ==> InRange(t.s[j].queue, t.n))
  }

  predicate InRange(queue: seq<nat>, n: nat) {
    forall k :: 0 <= k < |queue| ==> queue[k] < n
  }

  /** The next statement of philosopher `i`, who is not waiting. */
  ghost function NextTable(t: Table, i: nat): Table
    requires Shape(t) && QueuesOk(t) && i < t.n && !Waiting(t.place[i])
  {
    match t.place[i]
    case Think => DownMutex(t, i)
    case TakeSet => t.(phase := t.phase[i := HUNGRY], place := t.place[i := TakeTest])
    case TakeTest => Test(t, i, i, TakeTestUp, TakeUp)
    case TakeTestUp => UpFork(t, i, i, TakeUp)
    case TakeUp => UpMutex(t, i, ForkDown)
    case ForkDown => DownFork(t, i)
    case Eat => DownMutex(t, i)
    case PutSet => t.(phase := t.phase[i := THINKING], place := t.place[i := PutLeft])
    case PutLeft => Test(t, i, Left(t.n, i), PutLeftUp, PutRight)
    case PutLeftUp => UpFork(t, i, Left(t.n, i), PutRight)
    case PutRight => Test(t, i, Right(t.n, i), PutRightUp, PutUp)
    case PutRightUp => UpFork(t, i, Right(t.n, i), PutUp)
    case PutUp => UpMutex(t, i, Think)
    case _ => t
  }

  // ---------- the invariant ----------

  predicate InSection(p: Place) {
    p in {TakeSet, TakeTest, TakeTestUp, TakeUp, PutSet, PutLeft, PutLeftUp, PutRight, PutRightUp, PutUp}
  }

  /** At most one, `h`, is in the critical section, and the queue of the mutex is that of the waiting ones. */
  ghost predicate MutexOk(t: Table, h: Option<nat>)
    requires Shape(t)
  {
    && (forall i: nat :: i < t.n ==> (InSection(t.place[i]) <==> h == Some(i)))
    && (h.Some? ==> h.value < t.n)
    && t.mutex.value == (if h == None then 1 else 0)
    && (h == None ==> t.mutex.queue == [])
    && NoDup(t.mutex.queue)
    && (forall i: nat :: i in t.mutex.queue <==> i < t.n && t.place[i] in {TakeWait, PutWait})
  }

  /** Whom the one in the critical section is about to grant the forks. */
  function Target(t: Table, h: Option<nat>): Option<nat>
    requires Shape(t) && (h.Some? ==> h.value < t.n)
  {
    if h == None then None
    else match t.place[h.value]
      case TakeTestUp => h
      case PutLeftUp => Some(Left(t.n, h.value))
      case PutRightUp => Some(Right(t.n, h.value))
      case _ => None
  }

  /** Who eats by his phase has the grant to come, or in his semaphore, or has taken it; no one else has. */
  ghost predicate GrantOk(place: Place, phase: Phase, s: Sem, i: nat, pending: bool) {
    && s.queue == (if place == ForkWait then [i] else [])
    && match place
       case TakeTest => phase == HUNGRY && s.value == 0 && !pending
       case TakeTestUp => phase == EATING && s.value == 0 && pending
       case TakeUp => Awaits(phase, s.value, pending)
       case ForkDown => Awaits(phase, s.value, pending)
       case ForkWait => Awaits(phase, s.value, pending) && s.value == 0
       case Eat => phase == EATING && s.value == 0 && !pending
       case PutWait => phase == EATING && s.value == 0 && !pending
       case PutSet => phase == EATING && s.value == 0 && !pending
       case _ => phase == THINKING && s.value == 0 && !pending
  }

  predicate Awaits(phase: Phase, value: int, pending: bool) {
    || (phase == HUNGRY && value == 0 && !pending)
    || (phase == EATING && value == (if pending then 0 else 1))
  }

  ghost predicate GrantsOk(t: Table, h: Option<nat>)
    requires Shape(t) && (h.Some? ==> h.value < t.n)
  {
    forall i: nat :: i < t.n ==> GrantOk(t.place[i], t.phase[i], t.s[i], i, Target(t, h) == Some(i))
  }

  /** Neighbours do not eat at the same time. */
  ghost predicate ApartOk(t: Table)
    requires Shape(t)
  {
    forall i: nat :: i < t.n ==> !(t.phase[i] == EATING && t.phase[Right(t.n, i)] == EATING)
  }

  /** The one in the critical section is still going to test `i`. */
  predicate ToTest(t: Table, h: Option<nat>, i: nat)
    requires Shape(t) && (h.Some? ==> h.value < t.n)
  {
    h.Some? &&
    match t.place[h.value]
    case TakeTest => i == h.value
    case PutLeft => i == Left(t.n, h.value) || i == Right(t.n, h.value)
    case PutLeftUp => i == Right(t.n, h.value)
    case PutRight => i == Right(t.n, h.value)
    case _ => false
  }

  predicate NextToEater(t: Table, i: nat)
    requires Shape(t) && i < t.n
  {
    t.phase[Left(t.n, i)] == EATING || t.phase[Right(t.n, i)] == EATING
  }

  /** Who is hungry has a neighbour that eats, or is about to be tested. */
  ghost predicate HungryOk(t: Table, h: Option<nat>)
    requires Shape(t) && (h.Some? ==> h.value < t.n)
  {
    forall i: nat :: i < t.n && t.phase[i] == HUNGRY ==> NextToEater(t, i) || ToTest(t, h, i)
  }

  ghost predicate Inv(t: Table, h: Option<nat>) {
    Shape(t) && MutexOk(t, h) && GrantsOk(t, h) && ApartOk(t) && HungryOk(t, h)
  }

  lemma {:induction false} InvQueues(t: Table, h: Option<nat>)
    requires Inv(t, h)
    ensures QueuesOk(t)
  {
    assert forall k :: 0 <= k < |t.mutex.queue| ==> t.mutex.queue[k] in t.mutex.queue;
    forall j: nat | j < t.n
      ensures InRange(t.s[j].queue, t.n)
    {
      assert GrantOk(t.place[j], t.phase[j], t.s[j], j, Target(t, h) == Some(j));
    }
  }

  // ---------- what every step keeps ----------

  /** Who is in the critical section after the step of `i`. */
  function Holder(t: Table, i: nat, h: Option<nat>): Option<nat>
    requires Shape(t) && i < t.n
  {
    match t.place[i]
    case Think => if t.mutex.value > 0 then Some(i) else h
    case Eat => if t.mutex.value > 0 then Some(i) else h
    case TakeUp => if t.mutex.queue == [] then None else Some(t.mutex.queue[0])
    case PutUp => if t.mutex.queue == [] then None else Some(t.mutex.queue[0])
    case _ => h
  }

  lemma {:induction false} DownMutexSection(t: Table, i: nat, h: Option<nat>)
    requires Shape(t) && MutexOk(t, h) && i < t.n && t.place[i] in {Think, Eat}
    ensures MutexOk(DownMutex(t, i), Holder(t, i, h))
  {
    hide GrantsOk, ApartOk, HungryOk;
  }

  lemma {:induction false} DownMutexGrants(t: Table, i: nat, h: Option<nat>)
    requires Shape(t) && MutexOk(t, h) && GrantsOk(t, h) && i < t.n && t.place[i] in {Think, Eat}
    ensures Holder(t, i, h).Some? ==> Holder(t, i, h).value < t.n
    ensures GrantsOk(DownMutex(t, i), Holder(t, i, h))
  {
    hide Left, Right;
    var t', h' := DownMutex(t, i), Holder(t, i, h);
    assert Target(t', h') == Target(t, h);
    forall k: nat | k < t.n
      ensures GrantOk(t'.place[k], t'.phase[k], t'.s[k], k, Target(t', h') == Some(k))
    {
      assert GrantOk(t.place[k], t.phase[k], t.s[k], k, Target(t, h) == Some(k));
    }
  }

  lemma {:induction false} DownMutexPhases(t: Table, i: nat, h: Option<nat>)
    requires Shape(t) && MutexOk(t, h) && ApartOk(t) && HungryOk(t, h) && i < t.n && t.place[i] in {Think, Eat}
    ensures ApartOk(DownMutex(t, i))
    ensures Holder(t, i, h).Some? ==> Holder(t, i, h).value < t.n
    ensures HungryOk(DownMutex(t, i), Holder(t, i, h))
  {
    hide Left, Right;
    var t', h' := DownMutex(t, i), Holder(t, i, h);
    assert forall k: nat :: k < t.n ==> (NextToEater(t', k) <==> NextToEater(t, k));
    assert forall k: nat :: k < t.n ==> (ToTest(t', h', k) <==> ToTest(t, h, k));
  }

  lemma {:induction false} DownMutexKeeps(t: Table, i: nat, h: Option<nat>)
    requires Inv(t, h) && i < t.n && t.place[i] in {Think, Eat}
    ensures Inv(DownMutex(t, i), Holder(t, i, h))
  {
    hide MutexOk, GrantsOk, ApartOk, HungryOk;
    DownMutexSection(t, i, h);
    DownMutexGrants(t, i, h);
    DownMutexPhases(t, i, h);
  }

  lemma {:induction false} UpMutexSection(t: Table, i: nat, h: Option<nat>, next: Place)
    requires Shape(t) && MutexOk(t, h) && QueuesOk(t) && i < t.n && t.place[i] in {TakeUp, PutUp}
    requires next in {ForkDown, Think}
    ensures MutexOk(UpMutex(t, i, next), Holder(t, i, h))
  {
    var queue := t.mutex.queue;
    if queue != [] {
      assert queue[0] in queue && t.place[queue[0]] in {TakeWait, PutWait};
      assert forall p :: p in queue[1..] <==> p in queue && p != queue[0];
    }
  }

  lemma {:induction false} UpMutexGrants(t: Table, i: nat, h: Option<nat>, next: Place)
    requires Inv(t, h) && QueuesOk(t) && i < t.n
    requires (t.place[i] == TakeUp && next == ForkDown) || (t.place[i] == PutUp && next == Think)
    ensures Holder(t, i, h).Some? ==> Holder(t, i, h).value < t.n
    ensures GrantsOk(UpMutex(t, i, next), Holder(t, i, h))
  {
    hide ApartOk, HungryOk;
    assert h == Some(i);
    assert t.mutex.queue != [] ==> t.mutex.queue[0] in t.mutex.queue;
  }

  /** The section is handed over by one who has nobody left to test. */
  lemma {:induction false} UpMutexPhases(t: Table, i: nat, next: Place)
    requires Shape(t) && QueuesOk(t) && i < t.n && t.place[i] in {TakeUp, PutUp} && ApartOk(t) && HungryOk(t, Some(i))
    ensures var h' := Holder(t, i, Some(i));
            (h'.Some? ==> h'.value < t.n) && ApartOk(UpMutex(t, i, next)) && HungryOk(UpMutex(t, i, next), h')
  {
    hide Left, Right;
    var t' := UpMutex(t, i, next);
    assert forall k: nat :: k < t.n ==> (NextToEater(t', k) <==> NextToEater(t, k));
    assert forall k: nat :: k < t.n ==> !ToTest(t, Some(i), k);
  }

  lemma {:induction false} UpMutexKeeps(t: Table, i: nat, h: Option<nat>, next: Place)
    requires Inv(t, h) && QueuesOk(t) && i < t.n
    requires (t.place[i] == TakeUp && next == ForkDown) || (t.place[i] == PutUp && next == Think)
    ensures Inv(UpMutex(t, i, next), Holder(t, i, h))
  {
    hide GrantsOk, HungryOk, ApartOk;
    assert h == Some(i);
    UpMutexSection(t, i, h, next);
    UpMutexGrants(t, i, h, next);
    UpMutexPhases(t, i, next);
  }

  lemma {:induction false} SetHungryKeeps(t: Table, i: nat, h: Option<nat>)
    requires Inv(t, h) && i < t.n && t.place[i] == TakeSet
    ensures Inv(t.(phase := t.phase[i := HUNGRY], place := t.place[i := TakeTest]), h)
  {
  }

  lemma {:induction false} SetThinkingKeeps(t: Table, i: nat, h: Option<nat>)
    requires Inv(t, h) && i < t.n && t.place[i] == PutSet
    ensures Inv(t.(phase := t.phase[i := THINKING], place := t.place[i := PutLeft]), h)
  {
  }

  /** A step from a place outside of the section and the queue of the mutex, or inside, to another one. */
  lemma {:induction false} SameSection(t: Table, t': Table, i: nat, h: Option<nat>, p: Place)
    requires Shape(t) && Shape(t') && MutexOk(t, h) && i < t.n == t'.n && t'.mutex == t.mutex
    requires t'.place == t.place[i := p] && (InSection(p) <==> InSection(t.place[i]))
    requires p !in {TakeWait, PutWait} && t.place[i] !in {TakeWait, PutWait}
    ensures MutexOk(t', h)
  {
  }

  /** A step of somebody outside of the section that changes no phase. */
  lemma {:induction false} SamePhases(t: Table, t': Table, i: nat, h: Option<nat>, p: Place)
    requires Shape(t) && Shape(t') && (h.Some? ==> h.value < t.n) && h != Some(i) && i < t.n == t'.n
    requires t'.phase == t.phase && t'.place == t.place[i := p]
    ensures ApartOk(t) ==> ApartOk(t')
    ensures HungryOk(t, h) ==> HungryOk(t', h)
    ensures Target(t', h) == Target(t, h)
  {
    hide Left, Right;
    assert forall k: nat :: k < t.n ==> (NextToEater(t', k) <==> NextToEater(t, k));
    assert forall k: nat :: k < t.n ==> (ToTest(t', h, k) <==> ToTest(t, h, k));
  }

  lemma {:induction false} DownForkGrants(t: Table, i: nat, h: Option<nat>)
    requires Shape(t) && (h.Some? ==> h.value < t.n) && h != Some(i) && i < t.n && t.place[i] == ForkDown
    requires GrantsOk(t, h)
    ensures GrantsOk(DownFork(t, i), h)
  {
    hide Left, Right, HungryOk, ApartOk, Target;
    var t' := DownFork(t, i);
    SamePhases(t, t', i, h, t'.place[i]);
    forall k: nat | k < t.n
      ensures GrantOk(t'.place[k], t'.phase[k], t'.s[k], k, Target(t', h) == Some(k))
    {
      assert GrantOk(t.place[k], t.phase[k], t.s[k], k, Target(t, h) == Some(k));
    }
  }

  lemma {:induction false} DownForkKeeps(t: Table, i: nat, h: Option<nat>)
    requires Inv(t, h) && i < t.n && t.place[i] == ForkDown
    ensures Inv(DownFork(t, i), h)
  {
    hide GrantsOk, ApartOk, HungryOk;
    assert h != Some(i) && (h.Some? ==> h.value < t.n);
    SameSection(t, DownFork(t, i), i, h, DownFork(t, i).place[i]);
    SamePhases(t, DownFork(t, i), i, h, DownFork(t, i).place[i]);
    DownForkGrants(t, i, h);
  }

  /** The three calls of phi_test_sema. */
  ghost predicate Tests(t: Table, i: nat, j: nat, yes: Place, no: Place)
    requires Shape(t)
  {
    && i < t.n && j < t.n
    && (|| (t.place[i] == TakeTest && j == i && yes == TakeTestUp && no == TakeUp)
        || (t.place[i] == PutLeft && j == Left(t.n, i) && yes == PutLeftUp && no == PutRight)
        || (t.place[i] == PutRight && j == Right(t.n, i) && yes == PutRightUp && no == PutUp))
  }

  ghost predicate OnlyIn(t: Table, i: nat)
    requires Shape(t)
  {
    forall k: nat :: k < t.n ==> (InSection(t.place[k]) <==> k == i)
  }

  lemma {:induction false} HolderIs(t: Table, i: nat, h: Option<nat>)
    requires Shape(t) && MutexOk(t, h) && i < t.n && InSection(t.place[i])
    ensures h == Some(i) && OnlyIn(t, i)
  {
  }

  lemma {:induction false} TestGrants(t: Table, i: nat, j: nat, yes: Place, no: Place)
    requires Shape(t) && Tests(t, i, j, yes, no) && OnlyIn(t, i) && GrantsOk(t, Some(i))
    ensures GrantsOk(Test(t, i, j, yes, no), Some(i))
  {
    hide NextToEater;
    hide MayEat, ToTest, Left, Right;
    var t' := Test(t, i, j, yes, no);
    assert Target(t, Some(i)) == None;
    Neighbours(t.n, i);
    forall k: nat | k < t.n
      ensures GrantOk(t'.place[k], t'.phase[k], t'.s[k], k, Target(t', Some(i)) == Some(k))
    {
      assert GrantOk(t.place[k], t.phase[k], t.s[k], k, false) && (InSection(t.place[k]) <==> k == i);
      MayEatIs(t, j);
    }
  }

  lemma {:induction false} MayEatIs(t: Table, j: nat)
    requires Shape(t) && j < t.n
    ensures MayEat(t, j) <==> t.phase[j] == HUNGRY && !NextToEater(t, j)
  {
  }

  lemma {:induction false} TestApart(t: Table, i: nat, j: nat, yes: Place, no: Place)
    requires Shape(t) && ApartOk(t) && i < t.n && j < t.n
    ensures ApartOk(Test(t, i, j, yes, no))
  {
    var t' := Test(t, i, j, yes, no);
    forall k: nat | k < t.n
      ensures !(t'.phase[k] == EATING && t'.phase[Right(t.n, k)] == EATING)
    {
      Neighbours(t.n, k);
    }
  }

  lemma {:induction false} TestHungry(t: Table, i: nat, j: nat, yes: Place, no: Place)
    requires Shape(t) && Tests(t, i, j, yes, no) && HungryOk(t, Some(i))
    ensures HungryOk(Test(t, i, j, yes, no), Some(i))
  {
    hide MayEat;
    var t' := Test(t, i, j, yes, no);
    MayEatIs(t, j);
    forall k: nat | k < t.n && t'.phase[k] == HUNGRY
      ensures NextToEater(t', k) || ToTest(t', Some(i), k)
    {
      assert t.phase[k] == HUNGRY;
      assert NextToEater(t, k) ==> NextToEater(t', k);
    }
  }

  lemma {:induction false} TestKeeps(t: Table, i: nat, j: nat, h: Option<nat>, yes: Place, no: Place)
    requires Inv(t, h) && Tests(t, i, j, yes, no)
    ensures Inv(Test(t, i, j, yes, no), h)
  {
    hide MutexOk, GrantsOk, ApartOk, HungryOk;
    HolderIs(t, i, h);
    SameSection(t, Test(t, i, j, yes, no), i, h, if MayEat(t, j) then yes else no);
    TestGrants(t, i, j, yes, no);
    TestApart(t, i, j, yes, no);
    TestHungry(t, i, j, yes, no);
  }

  /** The three calls of up in it. */
  ghost predicate Ups(t: Table, i: nat, j: nat, next: Place)
    requires Shape(t)
  {
    && i < t.n && j < t.n
    && (|| (t.place[i] == TakeTestUp && j == i && next == TakeUp)
        || (t.place[i] == PutLeftUp && j == Left(t.n, i) && next == PutRight)
        || (t.place[i] == PutRightUp && j == Right(t.n, i) && next == PutUp))
  }

  /** Only the philosopher himself waits for his grant. */
  lemma {:induction false} UpForkPlaces(t: Table, i: nat, j: nat, next: Place)
    requires Shape(t) && Ups(t, i, j, next) && GrantsOk(t, Some(i)) && QueuesOk(t)
    ensures var place := t.place[i := next];
            UpFork(t, i, j, next).place == if t.place[j] == ForkWait then place[j := Eat] else place
  {
    Neighbours(t.n, i);
    assert GrantOk(t.place[j], t.phase[j], t.s[j], j, true);
  }

  lemma {:induction false} UpForkGrant(t: Table, i: nat, j: nat, next: Place, k: nat)
    requires Shape(t) && Ups(t, i, j, next) && OnlyIn(t, i) && k < t.n && QueuesOk(t)
    requires GrantOk(t.place[k], t.phase[k], t.s[k], k, k == j)
    requires UpFork(t, i, j, next).place == if t.place[j] == ForkWait then t.place[i := next][j := Eat]
             else t.place[i := next]
    ensures var t' := UpFork(t, i, j, next); GrantOk(t'.place[k], t'.phase[k], t'.s[k], k, false)
  {
    hide Left, Right, Wake, InRange;
    Neighbours(t.n, i);
    assert InSection(t.place[k]) <==> k == i;
  }

  lemma {:induction false} UpForkGrants(t: Table, i: nat, j: nat, next: Place)
    requires Shape(t) && Ups(t, i, j, next) && OnlyIn(t, i) && GrantsOk(t, Some(i)) && QueuesOk(t)
    ensures GrantsOk(UpFork(t, i, j, next), Some(i))
  {
    UpForkPlaces(t, i, j, next);
    hide Left, Right, Wake, GrantOk, UpFork, InRange;
    var t' := UpFork(t, i, j, next);
    Neighbours(t.n, i);
    assert Target(t, Some(i)) == Some(j) && Target(t', Some(i)) == None;
    forall k: nat | k < t.n
      ensures GrantOk(t'.place[k], t'.phase[k], t'.s[k], k, Target(t', Some(i)) == Some(k))
    {
      assert GrantOk(t.place[k], t.phase[k], t.s[k], k, Target(t, Some(i)) == Some(k));
      UpForkGrant(t, i, j, next, k);
    }
  }

  lemma {:induction false} UpForkHungry(t: Table, i: nat, j: nat, next: Place)
    requires Shape(t) && Ups(t, i, j, next) && GrantsOk(t, Some(i)) && HungryOk(t, Some(i)) && QueuesOk(t)
    ensures HungryOk(UpFork(t, i, j, next), Some(i))
  {
    UpForkPlaces(t, i, j, next);
    hide Wake, GrantsOk, QueuesOk;
  }

  lemma {:induction false} UpForkKeeps(t: Table, i: nat, j: nat, h: Option<nat>, next: Place)
    requires Inv(t, h) && QueuesOk(t) && Ups(t, i, j, next)
    ensures Inv(UpFork(t, i, j, next), h)
  {
    hide MutexOk, GrantsOk, HungryOk, Wake;
    HolderIs(t, i, h);
    UpForkPlaces(t, i, j, next);
    var t1 := t.(place := t.place[i := next]);
    SameSection(t, t1, i, h, next);
    if t.place[j] == ForkWait {
      SameSection(t1, UpFork(t, i, j, next), j, h, Eat);
    } else {
      SameSection(t1, UpFork(t, i, j, next), i, h, next);
    }
    UpForkGrants(t, i, j, next);
    UpForkHungry(t, i, j, next);
  }

  lemma {:induction false} Neighbours(n: nat, i: nat)
    requires n >= 2 && i < n
    ensures Left(n, i) != i && Right(n, i) != i
    ensures Left(n, Right(n, i)) == i && Right(n, Left(n, i)) == i
  {
  }

  lemma {:induction false} StepKeeps(t: Table, i: nat, h: Option<nat>)
    requires Inv(t, h) && QueuesOk(t) && i < t.n && !Waiting(t.place[i])
    ensures Inv(NextTable(t, i), Holder(t, i, h))
  {
    hide DownMutex, UpMutex, DownFork, UpFork, Test, MutexOk, GrantsOk, ApartOk, HungryOk;
    match t.place[i]
    case Think => DownMutexKeeps(t, i, h);
    case Eat => DownMutexKeeps(t, i, h);
    case TakeSet => SetHungryKeeps(t, i, h);
    case PutSet => SetThinkingKeeps(t, i, h);
    case TakeTest => TestKeeps(t, i, i, h, TakeTestUp, TakeUp);
    case PutLeft => TestKeeps(t, i, Left(t.n, i), h, PutLeftUp, PutRight);
    case PutRight => TestKeeps(t, i, Right(t.n, i), h, PutRightUp, PutUp);
    case TakeTestUp => UpForkKeeps(t, i, i, h, TakeUp);
    case PutLeftUp => UpForkKeeps(t, i, Left(t.n, i), h, PutRight);
    case PutRightUp => UpForkKeeps(t, i, Right(t.n, i), h, PutUp);
    case TakeUp => UpMutexKeeps(t, i, h, ForkDown);
    case PutUp => UpMutexKeeps(t, i, h, Think);
    case ForkDown => DownForkKeeps(t, i, h);
    case _ =>
  }

  /** All think, and nobody waits. */
  function Initial(n: nat): Table
    requires n >= 2
  {
    Table(n, seq(n, _ => THINKING), Sem(1, []), seq(n, _ => Sem(0, [])), seq(n, _ => Think))
  }

  lemma {:induction false} InitialOk(n: nat)
    requires n >= 2
    ensures Inv(Initial(n), None)
  {
  }

  // ---------- what holds in every state of every run ----------

  /** Neighbours never eat at the same time. */
  lemma {:induction false} NeighboursApart(t: Table, h: Option<nat>, i: nat)
    requires Inv(t, h) && i < t.n
    ensures !(t.place[i] == Eat && t.place[Right(t.n, i)] == Eat)
    ensures !(t.phase[i] == EATING && t.phase[Right(t.n, i)] == EATING)
  {
    var j := Right(t.n, i);
    assert GrantOk(t.place[i], t.phase[i], t.s[i], i, Target(t, h) == Some(i));
    assert GrantOk(t.place[j], t.phase[j], t.s[j], j, Target(t, h) == Some(j));
  }

  /** Whenever the mutex is free, everyone who is hungry has a neighbour who eats. */
  lemma {:induction false} HungryWaitsForEater(t: Table, h: Option<nat>, i: nat)
    requires Inv(t, h) && i < t.n && t.mutex.value > 0 && t.phase[i] == HUNGRY
    ensures NextToEater(t, i)
  {
  }

  /** Whoever waits stays where he is. */
  ghost predicate TableStep(t: Table, i: nat, t': Table) {
    if Shape(t) && QueuesOk(t) && i < t.n && !Waiting(t.place[i]) then t' == NextTable(t, i) else t' == t
  }

  ghost predicate TableRun(trace: seq<Table>, schedule: seq<nat>) {
    |trace| == |schedule| + 1 && forall k :: 0 <= k < |schedule| ==> TableStep(trace[k], schedule[k], trace[k + 1])
  }

  /** The table with philosopher `i` at another place, and so on. */
  function At(t: Table, i: nat, phase: Phase, mutex: Sem, s: Sem, place: Place): Table
    requires Shape(t) && i < t.n
  {
    t.(phase := t.phase[i := phase], mutex := mutex, s := t.s[i := s], place := t.place[i := place])
  }

  lemma {:induction false} FreeTable(t: Table, i: nat)
    requires Inv(t, None) && i < t.n && t.place[i] in {Think, Eat}
    ensures Shape(t) && QueuesOk(t) && t.mutex == Sem(1, []) && t.s[i] == Sem(0, [])
    ensures t.phase[i] == if t.place[i] == Think then THINKING else EATING
  {
    InvQueues(t, None);
    assert GrantOk(t.place[i], t.phase[i], t.s[i], i, Target(t, None) == Some(i));
  }

  /** With the mutex free and no neighbour eating, a philosopher who takes his six statements eats. */
  lemma {:induction false} TakesForks(t: Table, i: nat, trace: seq<Table>)
    requires Inv(t, None) && i < t.n && t.place[i] == Think && !NextToEater(t, i)
    requires TableRun(trace, [i, i, i, i, i, i]) && trace[0] == t
    ensures trace[6] == t.(phase := t.phase[i := EATING], place := t.place[i := Eat])
  {
    hide Inv, GrantOk;
    FreeTable(t, i);
    var free, taken, none, one := Sem(1, []), Sem(0, []), Sem(0, []), Sem(1, []);
    assert t == At(t, i, THINKING, free, none, Think);
    forall k | 0 <= k < 6
      ensures TableStep(trace[k], i, trace[k + 1])
    {
      assert [i, i, i, i, i, i][k] == i;
    }
    QueuesAlike(t, i);
    assert trace[1] == At(t, i, THINKING, taken, none, TakeSet);
    assert trace[2] == At(t, i, HUNGRY, taken, none, TakeTest);
    assert trace[3] == At(t, i, EATING, taken, none, TakeTestUp);
    assert trace[4] == At(t, i, EATING, taken, one, TakeUp);
    assert trace[5] == At(t, i, EATING, free, one, ForkDown);
    assert trace[6] == At(t, i, EATING, free, none, Eat);
  }

  /** With the mutex free and no neighbour hungry, five more bring him back, and nothing else changes. */
  lemma {:induction false} PutsForks(t: Table, i: nat, trace: seq<Table>)
    requires Inv(t, None) && i < t.n && t.place[i] == Eat
    requires t.phase[Left(t.n, i)] != HUNGRY && t.phase[Right(t.n, i)] != HUNGRY
    requires TableRun(trace, [i, i, i, i, i]) && trace[0] == t
    ensures trace[5] == t.(phase := t.phase[i := THINKING], place := t.place[i := Think])
  {
    hide Inv, GrantOk, QueuesOk, MayEat, Left, Right, Test;
    FreeTable(t, i);
    forall k | 0 <= k < 5
      ensures TableStep(trace[k], i, trace[k + 1])
    {
      assert [i, i, i, i, i][k] == i;
    }
    StopsEating(t, trace[1], trace[2], i);
    TestsNobody(trace[2], trace[3], trace[4], i);
    QueuesAlike(t, i);
    assert trace[4] == At(t, i, THINKING, Sem(0, []), Sem(0, []), PutUp);
    assert trace[5] == At(t, i, THINKING, Sem(1, []), Sem(0, []), Think);
  }

  /** Neighbours that are not hungry are not tested with success. */
  lemma {:induction false} TestsNobody(t: Table, t1: Table, t2: Table, i: nat)
    requires Shape(t) && QueuesOk(t) && i < t.n && t.place[i] == PutLeft
    requires t.phase[Left(t.n, i)] != HUNGRY && t.phase[Right(t.n, i)] != HUNGRY
    requires TableStep(t, i, t1) && TableStep(t1, i, t2)
    ensures t1 == t.(place := t.place[i := PutRight]) && t2 == t.(place := t.place[i := PutUp])
  {
    hide Left, Right, InRange;
    assert t1 == t.(place := t.place[i := PutRight]);
    assert t.place[i := PutRight][i := PutUp] == t.place[i := PutUp];
  }

  lemma {:induction false} StopsEating(t: Table, t1: Table, t2: Table, i: nat)
    requires Shape(t) && QueuesOk(t) && i < t.n && t.place[i] == Eat && t.mutex == Sem(1, [])
    requires TableStep(t, i, t1) && TableStep(t1, i, t2)
    ensures t2 == t.(phase := t.phase[i := THINKING], mutex := Sem(0, []), place := t.place[i := PutLeft])
    ensures QueuesOk(t2)
  {
    assert t1 == t.(mutex := Sem(0, []), place := t.place[i := PutSet]);
    assert t.place[i := PutSet][i := PutLeft] == t.place[i := PutLeft];
  }

  lemma {:induction false} QueuesAlike(t: Table, i: nat)
    requires Shape(t) && QueuesOk(t) && i < t.n
    ensures forall phase, mutex: Sem, s: Sem, place :: mutex.queue == [] && s.queue == [] ==>
              Shape(At(t, i, phase, mutex, s, place)) && QueuesOk(At(t, i, phase, mutex, s, place))
  {
  }

  /** Somebody can always go on. */
  lemma {:induction false} NoDeadlock(t: Table, h: Option<nat>) returns (i: nat)
    requires Inv(t, h)
    ensures i < t.n && !Waiting(t.place[i])
  {
    if h.Some? {
      i := h.value;
    } else if !Waiting(t.place[0]) {
      i := 0;
    } else {
      WaitsForFork(t, 0);
      var l, r := Left(t.n, 0), Right(t.n, 0);
      i := if t.phase[l] == EATING then l else r;
      if Waiting(t.place[i]) {
        WaitsForFork(t, i);
      }
    }
  }

  /** With nobody in the critical section, who waits is hungry. */
  lemma {:induction false} WaitsForFork(t: Table, i: nat)
    requires Inv(t, None) && i < t.n && Waiting(t.place[i])
    ensures t.phase[i] == HUNGRY && NextToEater(t, i)
  {
    assert i !in t.mutex.queue;
    assert GrantOk(t.place[i], t.phase[i], t.s[i], i, false);
  }

  // ---------- the kernel's objects ----------

  /** struct semaphore; `ups` and `downs` count the calls of up and the calls of down that were granted. */
  class Semaphore {
    var value: int
    var wait_queue: seq<nat>
    const init: int
    ghost var ups: nat
    ghost var downs: nat

    /** Somebody waits only at 0, and every up is used by one down at most. */
    ghost predicate Valid()
      reads this
    {
      value >= 0 && (wait_queue != [] ==> value == 0) && init + ups == value + downs
    }

    function St(): Sem
      reads this
    {
      Sem(value, wait_queue)
    }

    /** sem_init. */
    constructor (value: int)
      requires value >= 0
      ensures Valid() && St() == Sem(value, [])
    {
      this.value, wait_queue, init, ups, downs := value, [], value, 0, 0;
    }

    /** __up: it wakes the first in the queue, who is granted his down. */
    method Up() returns (woken: Option<nat>)
      requires Valid()
      modifies this
      ensures Valid()
      ensures St() == Raised(old(St()))
      ensures woken == if old(wait_queue) == [] then None else Some(old(wait_queue)[0])
      ensures ups == old(ups) + 1 && downs == old(downs) + if woken == None then 0 else 1
      ensures value == (if woken == None then old(value) + 1 else old(value))
      ensures wait_queue == (if woken == None then [] else old(wait_queue)[1..])
    {
      ups := ups + 1;
      if wait_queue == [] {
        value := value + 1;
        woken := None;
      } else {
        woken := Some(wait_queue[0]);
        wait_queue := wait_queue[1..];
        downs := downs + 1;
      }
    }

    /** __down up to its call of schedule. */
    method Down(p: nat) returns (granted: bool)
      requires Valid()
      modifies this
      ensures Valid()
      ensures St() == Lowered(old(St()), p)
      ensures granted <==> old(value) > 0
      ensures ups == old(ups) && downs == old(downs) + if granted then 1 else 0
      ensures value == (if granted then old(value) - 1 else old(value))
      ensures wait_queue == (if granted then old(wait_queue) else old(wait_queue) + [p])
    {
      if value > 0 {
        value := value - 1;
        downs := downs + 1;
        return true;
      }
      wait_queue := wait_queue + [p];
      return false;
    }
  }

  ghost function Sems(s: seq<Semaphore>): (r: seq<Sem>)
    reads s
    ensures |r| == |s| && forall i :: 0 <= i < |s| ==> r[i] == s[i].St()
  {
    if s == [] then [] else [s[0].St()] + Sems(s[1..])
  }

  method MakeForks(n: nat) returns (forks: seq<Semaphore>)
    ensures |forks| == n && NoDup(forks)
    ensures forall k :: 0 <= k < n ==> fresh(forks[k]) && forks[k].Valid() && forks[k].St() == Sem(0, [])
  {
    forks := [];
    while |forks| < n
      invariant |forks| <= n && NoDup(forks)
      invariant forall k :: 0 <= k < |forks| ==> fresh(forks[k]) && forks[k].Valid() && forks[k].St() == Sem(0, [])
    {
      var f := new Semaphore(0);
      forks := forks + [f];
    }
  }

  lemma {:induction false} QueueOf(t: Table, j: nat)
    requires Shape(t) && QueuesOk(t) && j < t.n
    ensures InRange(t.s[j].queue, t.n) && InRange(t.mutex.queue, t.n)
  {
  }

  /** The table of check_sync.c, with where each philosopher is. */
  class Dining {
    const n: nat
    const mutex: Semaphore
    const s: seq<Semaphore>
    var state_sema: seq<Phase>
    var place: seq<Place>
    /** Who is in the critical section. */
    ghost var holder: Option<nat>

    ghost function T(): Table
      reads this, mutex, s
    {
      Table(n, state_sema, mutex.St(), Sems(s), place)
    }

    /** The semaphores are different ones. */
    ghost predicate Owned()
      reads mutex, s
    {
      NoDup(s) && mutex !in s && mutex.Valid() && forall k :: 0 <= k < |s| ==> s[k].Valid()
    }

    ghost predicate Valid()
      reads this, mutex, s
    {
      Owned() && Inv(T(), holder)
    }

    constructor (n: nat)
      requires n >= 2
      ensures Valid() && T() == Initial(n)
      ensures fresh(mutex) && fresh(s)
    {
      hide Inv, NoDup;
      var forks := MakeForks(n);
      var m := new Semaphore(1);
      this.n, mutex, s, holder := n, m, forks, None;
      state_sema, place := seq(n, _ => THINKING), seq(n, _ => Think);
      new;
      assert T() == Initial(n);
      InitialOk(n);
    }

    /** The first half of phi_test_sema. */
    method PhiTest(i: nat, j: nat, yes: Place, no: Place)
      requires Shape(T()) && i < n && j < n
      modifies this`state_sema, this`place
      ensures state_sema == Test(old(T()), i, j, yes, no).phase
      ensures place == Test(old(T()), i, j, yes, no).place
    {
      hide Sems, Left, Right;
      if state_sema[j] == HUNGRY && state_sema[Left(n, j)] != EATING && state_sema[Right(n, j)] != EATING {
        state_sema := state_sema[j := EATING];
        place := place[i := yes];
      } else {
        place := place[i := no];
      }
    }

    /** A call of up by `i`, who is at `next` afterwards. */
    method CallUp(sem: Semaphore, i: nat, next: Place)
      requires i < |place| && sem.Valid() && InRange(sem.wait_queue, |place|)
      modifies sem, this`place
      ensures sem.Valid()
      ensures sem.St() == Raised(old(sem.St()))
      ensures place == Wake(old(place)[i := next], old(sem.wait_queue))
    {
      var woken := sem.Up();
      place := place[i := next];
      if woken.Some? {
        place := place[woken.value := Granted(place[woken.value])];
      }
    }

    /** A call of down by `i`. */
    method CallDown(sem: Semaphore, i: nat)
      requires i < |place| && sem.Valid()
      modifies sem, this`place
      ensures sem.Valid()
      ensures sem.St() == Lowered(old(sem.St()), i)
      ensures place == old(place)[i := if old(sem.value) > 0 then Granted(old(place)[i]) else Blocked(old(place)[i])]
    {
      var granted := sem.Down(i);
      place := place[i := if granted then Granted(place[i]) else Blocked(place[i])];
    }

    method UpMutexBy(i: nat, next: Place)
      requires Owned() && Shape(T()) && QueuesOk(T()) && i < n
      modifies mutex, this`place
      ensures Owned()
      ensures T() == UpMutex(old(T()), i, next)
    {
      hide NoDup, Wake;
      ghost var sems := Sems(s);
      assert mutex.wait_queue == T().mutex.queue;
      CallUp(mutex, i, next);
      assert Sems(s) == sems;
    }

    method DownMutexBy(i: nat)
      requires Owned() && Shape(T()) && i < n
      modifies mutex, this`place
      ensures Owned()
      ensures T() == DownMutex(old(T()), i)
    {
      hide NoDup;
      ghost var sems := Sems(s);
      CallDown(mutex, i);
      assert Sems(s) == sems;
    }

    method UpForkBy(i: nat, j: nat, next: Place)
      requires Owned() && Shape(T()) && QueuesOk(T()) && i < n && j < n
      modifies s, this`place
      ensures Owned()
      ensures T() == UpFork(old(T()), i, j, next)
    {
      hide Wake, QueuesOk, InRange;
      ghost var sems := Sems(s);
      QueueOf(T(), j);
      assert s[j].wait_queue == T().s[j].queue;
      CallUp(s[j], i, next);
      assert Sems(s) == sems[j := s[j].St()];
    }

    method DownForkBy(i: nat)
      requires Owned() && Shape(T()) && i < n
      modifies s, this`place
      ensures Owned()
      ensures T() == DownFork(old(T()), i)
    {
      ghost var sems := Sems(s);
      CallDown(s[i], i);
      assert Sems(s) == sems[i := s[i].St()];
    }

    /** The next statement of philosopher `i`, on the objects. */
    method Act(i: nat)
      requires Owned() && Shape(T()) && QueuesOk(T()) && i < n && !Waiting(place[i])
      modifies this`state_sema, this`place, mutex, s
      ensures Owned()
      ensures T() == NextTable(old(T()), i)
    {
      hide Owned, Sems, Left, Right, DownMutex, UpMutex, DownFork, UpFork, Raised, Lowered;
      match place[i] {
        case Think => DownMutexBy(i);
        case Eat => DownMutexBy(i);
        case TakeSet => state_sema, place := state_sema[i := HUNGRY], place[i := TakeTest];
        case PutSet => state_sema, place := state_sema[i := THINKING], place[i := PutLeft];
        case TakeTest => PhiTest(i, i, TakeTestUp, TakeUp);
        case PutLeft => PhiTest(i, Left(n, i), PutLeftUp, PutRight);
        case PutRight => PhiTest(i, Right(n, i), PutRightUp, PutUp);
        case TakeTestUp => UpForkBy(i, i, TakeUp);
        case PutLeftUp => UpForkBy(i, Left(n, i), PutRight);
        case PutRightUp => UpForkBy(i, Right(n, i), PutUp);
        case TakeUp => UpMutexBy(i, ForkDown);
        case PutUp => UpMutexBy(i, Think);
        case ForkDown => DownForkBy(i);
        case _ =>
      }
    }

    /** A step keeps what holds at all times. */
    method Step(i: nat)
      requires Valid() && i < n && !Waiting(place[i])
      modifies this`state_sema, this`place, this`holder, mutex, s
      ensures Valid()
      ensures QueuesOk(old(T())) && T() == NextTable(old(T()), i)
    {
      hide NextTable, Owned, MutexOk, GrantsOk, ApartOk, HungryOk, QueuesOk;
      ghost var t, h := T(), holder;
      InvQueues(t, h);
      Act(i);
      holder := Holder(t, i, h);
      StepKeeps(t, i, h);
      assert T() == NextTable(t, i);
    }

    /** A philosopher is scheduled. */
    method Try(i: nat)
      requires Valid()
      modifies this`state_sema, this`place, this`holder, mutex, s
      ensures Valid()
      ensures TableStep(old(T()), i, T())
    {
      InvQueues(T(), holder);
      if i < n && !Waiting(place[i]) {
        hide Inv, NextTable;
        Step(i);
      }
    }

    method Steps(schedule: seq<nat>) returns (ghost trace: seq<Table>)
      requires Valid()
      modifies this`state_sema, this`place, this`holder, mutex, s
      ensures Valid()
      ensures TableRun(trace, schedule) && trace[0] == old(T()) && trace[|schedule|] == T()
    {
      hide Dining.Valid, Dining.T;
      hide Inv, Shape, TableStep;
      trace := [T()];
      for k := 0 to |schedule|
        invariant Valid()
        invariant TableRun(trace, schedule[..k]) && trace[0] == old(T()) && trace[k] == T()
      {
        Try(schedule[k]);
        trace := trace + [T()];
      }
      assert schedule[..|schedule|] == schedule;
    }

    /** Any philosophers in any order: neighbours never eat at the same time, and somebody can always go on. */
    method Run(schedule: seq<nat>) returns (ghost trace: seq<Table>)
      requires Valid()
      modifies this`state_sema, this`place, this`holder, mutex, s
      ensures Valid()
      ensures forall i: nat :: i < n ==> !(place[i] == Eat && place[Right(n, i)] == Eat)
      ensures exists i: nat :: i < n && !Waiting(place[i])
      ensures TableRun(trace, schedule) && trace[0] == old(T()) && trace[|schedule|] == T()
    {
      trace := Steps(schedule);
      forall i: nat | i < n
        ensures !(place[i] == Eat && place[Right(n, i)] == Eat)
      {
        NeighboursApart(T(), holder, i);
      }
      ghost var i := NoDeadlock(T(), holder);
    }
  }
}
