/**
 Process ids (get_pid in kern/process/proc.c, with the process list that do_fork and do_wait change). The
 cursors `last_pid` and `next_safe` stay in place between calls: a new process gets the first free id
 behind the last one, around the end.
 */
module Pids {
  import opened Defs
  import opened Lists

  const MAX_PROCESS: int := 4096
  const MAX_PID: int := 2 * MAX_PROCESS

  /** All ids from `from` up to `to`, which may be around the end, are in use. */
  ghost predicate Passed(pids: seq<int>, from: int, to: int) {
    if from <= to then forall p :: from <= p < to ==> p in pids
    else (forall p :: from <= p < MAX_PID ==> p in pids) && forall p :: 1 <= p < to ==> p in pids
  }

  /** The id behind `p`, around the end. */
  function After(p: int): int {
    if p + 1 >= MAX_PID then 1 else p + 1
  }

  /** How far it is from `p` up to `f`, around the end. */
  function Distance(p: int, f: int): int {
    if p <= f then f - p else f - p + MAX_PID - 1
  }

  /** The first `i` ids are not in [last_pid, next_safe). */
  ghost predicate NoneIn(pids: seq<int>, i: nat, last_pid: int, next_safe: int) {
    forall j :: 0 <= j < i && j < |pids| ==> pids[j] < last_pid || next_safe <= pids[j]
  }

  /** Passing an id in use comes closer to a free one, and never around it. */
  lemma {:induction false} PassOne(pids: seq<int>, from: int, p: int, f: int)
    requires 1 <= from < MAX_PID && 1 <= p < MAX_PID && 1 <= f < MAX_PID && f !in pids
    requires Passed(pids, from, p) && p in pids && Distance(p, f) <= Distance(from, f)
    ensures Passed(pids, from, After(p)) && Distance(After(p), f) == Distance(p, f) - 1
  {
    assert p != f;
  }

  function Below(n: int): (r: set<int>)
    requires n >= 1
    ensures forall p :: p in r <==> 1 <= p < n
    ensures |r| == n - 1
  {
    if n == 1 then {} else Below(n - 1) + {n - 1}
  }

  function Members(pids: seq<int>): (r: set<int>)
    ensures forall p :: p in r <==> p in pids
    ensures |r| <= |pids|
  {
    if pids == [] then {} else Members(pids[1..]) + {pids[0]}
  }

  lemma {:induction false} SubsetSize<T>(a: set<T>, b: set<T>)
    requires a <= b
    ensures |a| <= |b|
  {
    if a != {} {
      var x :| x in a;
      SubsetSize(a - {x}, b - {x});
    }
  }

  /** There are more ids than processes. */
  lemma {:induction false} SomeFree(pids: seq<int>) returns (f: int)
    requires |pids| <= MAX_PROCESS
    ensures 1 <= f < MAX_PID && f !in pids
  {
    var all, used := Below(MAX_PID), Members(pids);
    if all - used == {} {
      assert all <= used;
      SubsetSize(all, used);
    }
    f :| f in all - used;
  }

  class ProcTable {
    /** The ids in the order of proc_list, the youngest process first. */
    var pids: seq<int>
    var next_safe: int
    var last_pid: int
    var nr_process: int

    /** No id strictly between the cursors is in use; at first both are at the end. */
    ghost predicate CursorsOk()
      reads this
    {
      && 1 <= last_pid <= next_safe <= MAX_PID
      && (last_pid < next_safe || next_safe == MAX_PID)
      && forall p :: p in pids ==> p <= last_pid || next_safe <= p
    }

    /** The idle process counts, but is not in the list. */
    ghost predicate Valid()
      reads this
    {
      && CursorsOk() && NoDup(pids) && nr_process == |pids| + 1 <= MAX_PROCESS
      && forall p :: p in pids ==> 1 <= p < MAX_PID
    }

    constructor ()
      ensures Valid() && pids == []
    {
      pids, next_safe, last_pid, nr_process := [], MAX_PID, MAX_PID, 1;
    }

    /** One scan of the process list; it is broken off when `last_pid` reaches `next_safe`. */
    method Scan(ghost from: int, ghost f: int) returns (again: bool)
      requires 1 <= last_pid < MAX_PID && 1 <= from < MAX_PID && 1 <= f < MAX_PID && f !in pids
      requires Passed(pids, from, last_pid) && Distance(last_pid, f) <= Distance(from, f)
      modifies this`last_pid, this`next_safe
      ensures Passed(pids, from, last_pid) && 1 <= last_pid < MAX_PID
      ensures 0 <= Distance(last_pid, f) <= old(Distance(last_pid, f))
      ensures again ==> Distance(last_pid, f) < old(Distance(last_pid, f))
      ensures !again ==> last_pid < next_safe <= MAX_PID && NoneIn(pids, |pids|, last_pid, next_safe)
    {
      next_safe := MAX_PID;
      for i := 0 to |pids|
        invariant 1 <= last_pid < next_safe <= MAX_PID
        invariant Passed(pids, from, last_pid)
        invariant Distance(last_pid, f) <= old(Distance(last_pid, f))
        invariant NoneIn(pids, i, last_pid, next_safe)
      {
        var pid := pids[i];
        if pid == last_pid {
          PassOne(pids, from, last_pid, f);
          last_pid := last_pid + 1;
          if last_pid >= next_safe {
            if last_pid >= MAX_PID {
              last_pid := 1;
            }
            return true;
          }
        } else if pid > last_pid && next_safe > pid {
          next_safe := pid;
        }
      }
      return false;
    }

    /** get_pid: the first id behind the last one that no process has. */
    method GetPid() returns (pid: int)
      requires Valid()
      modifies this`last_pid, this`next_safe
      ensures 1 <= pid < MAX_PID && pid !in pids
      ensures Passed(pids, After(old(last_pid)), pid)
      ensures pid == last_pid && CursorsOk() && last_pid < next_safe
    {
      ghost var f := SomeFree(pids);
      ghost var from := After(last_pid);
      last_pid := last_pid + 1;
      var inside := last_pid >= MAX_PID;
      if inside {
        last_pid := 1;
      }
      if inside || last_pid >= next_safe {
        var again := true;
        while again
          invariant 1 <= last_pid < MAX_PID
          invariant Passed(pids, from, last_pid) && 0 <= Distance(last_pid, f) <= Distance(from, f)
          invariant !again ==> last_pid < next_safe <= MAX_PID && NoneIn(pids, |pids|, last_pid, next_safe)
          decreases Distance(last_pid, f), again
        {
          again := Scan(from, f);
        }
      }
      return last_pid;
    }

    /**
     The part of do_fork that makes a process: it fails when there are MAX_PROCESS, and without memory for what it
     allocates before; else the id is a new one.
     */
    method Fork(memory: bool) returns (pid: int)
      requires Valid()
      modifies this
      ensures Valid()
      ensures pid == -E_NO_FREE_PROC <==> old(|pids|) + 1 == MAX_PROCESS
      ensures pid == -E_NO_MEM <==> !memory && old(|pids|) + 1 != MAX_PROCESS
      ensures pid < 0 ==> pids == old(pids)
      ensures pid >= 0 ==> pid !in old(pids) && pids == [pid] + old(pids)
      ensures pid >= 0 ==> Passed(old(pids), After(old(last_pid)), pid)
    {
      if nr_process >= MAX_PROCESS {
        return -E_NO_FREE_PROC;
      }
      if !memory {
        return -E_NO_MEM;
      }
      pid := GetPid();
      pids := [pid] + pids;
      nr_process := nr_process + 1;
    }

    /** remove_links when a process has been waited for. */
    method Remove(pid: int, ghost k: nat)
      requires Valid() && k < |pids| && pids[k] == pid
      modifies this`pids, this`nr_process
      ensures Valid()
      ensures pids == old(pids)[..k] + old(pids)[k + 1..] && pid !in pids
    {
      DelAt(pids, k);
      DelIs(pids, pid);
      pids := Del(pids, pid);
      nr_process := nr_process - 1;
    }
  }
}
