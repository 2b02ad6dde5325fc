/**
 * The scheduler's table as kernel/sched.c updates it in place. Each method is
 * proved against the function of module `Scheduler` that specifies it.
 */
module SchedulerTable {
  import opened Common
  import opened Scheduler

  class ThreadTable {
    var threads: Threads
    var ready: seq<nat>
    var suspended: seq<nat>
    var work: Option<nat>
    var started: bool

    ghost function View(): Table
      reads this
    {
      Table(threads, ready, suspended, work, started)
    }

    constructor ()
      ensures View() == EMPTY
    {
      threads, ready, suspended, work, started := map[], [], [], None, false;
    }

    method SetTarget(t: nat, target: Status)
      requires t in threads
      modifies this`threads
      ensures View() == Request(old(View()), t, target)
    {
      threads := threads[t := threads[t].(target := target)];
    }

    method SyncStatus(t: nat, status: Status)
      requires t in threads
      modifies this`threads
      ensures View() == Sync(old(View()), t, status)
    {
      threads := threads[t := threads[t].(status := status, target := Unset)];
    }

    // -------------------------------------------------------------- lists

    /** Walks the list forward for the thread itself, then backward for a
        thread that the newcomer does not outrank. */
    method AddStatusList(list: seq<nat>, t: nat) returns (r: seq<nat>)
      ensures r == Enqueue(threads, list, t)
    {
      var p := Prio(threads, t);
      if list == [] {
        return [t];
      }
      for i := 0 to |list|
        invariant t !in list[..i]
      {
        if list[i] == t {
          return list;
        }
      }
      var i := |list|;
      while i > 0
        invariant 0 <= i <= |list|
        invariant forall j :: i <= j < |list| ==> p < Prio(threads, list[j])
      {
        if Prio(threads, list[i - 1]) <= p {
          PositionUnique(threads, list, p, i);
          return list[..i] + [t] + list[i..];
        }
        i := i - 1;
      }
      PositionUnique(threads, list, p, 0);
      return [t] + list;
    }

    method DelStatusList(list: seq<nat>, t: nat) returns (r: seq<nat>)
      ensures r == Without(list, t)
    {
      for i := 0 to |list|
        invariant t !in list[..i]
      {
        if list[i] == t {
          WithoutAt(list, i);
          return list[..i] + list[i + 1..];
        }
      }
      WithoutAbsent(list, t);
      return list;
    }

    method AddReadyList(t: nat) returns (code: Code)
      requires t in threads
      modifies this`ready
      ensures code == if threads[t].status == Ready then Invalid else Normal
      ensures ready == if threads[t].status == Ready then old(ready) else Enqueue(threads, old(ready), t)
    {
      if threads[t].status == Ready {
        return Invalid;
      }
      ready := AddStatusList(ready, t);
      return Normal;
    }

    method DetachReadyList(t: nat) returns (code: Code)
      requires t in threads
      modifies this`ready
      ensures code == if threads[t].status == Ready then Normal else Invalid
      ensures ready == if threads[t].status == Ready then Without(old(ready), t) else old(ready)
    {
      if threads[t].status != Ready {
        return Invalid;
      }
      ready := DelStatusList(ready, t);
      return Normal;
    }

    method AddSuspendList(t: nat) returns (code: Code)
      requires t in threads
      modifies this`suspended
      ensures code == if threads[t].status == Suspend then Invalid else Normal
      ensures suspended == if threads[t].status == Suspend then old(suspended) else Enqueue(threads, old(suspended), t)
    {
      if threads[t].status == Suspend {
        return Invalid;
      }
      suspended := AddStatusList(suspended, t);
      return Normal;
    }

    method DetachSuspendList(t: nat) returns (code: Code)
      requires t in threads
      modifies this`suspended
      ensures code == if threads[t].status == Suspend then Normal else Invalid
      ensures suspended == if threads[t].status == Suspend then Without(old(suspended), t) else old(suspended)
    {
      if threads[t].status != Suspend {
        return Invalid;
      }
      suspended := DelStatusList(suspended, t);
      return Normal;
    }

    // ------------------------------------------------------- running slot

    /** Takes the running slot for `t`; whoever held it goes back to ready. */
    method DespoilWorkRole(t: nat) returns (code: Code)
      requires t in threads && (work.Some? ==> work.value in threads)
      modifies this
      ensures (View(), code) == Enter(old(View()), t, Running)
    {
      if threads[t].status != Ready {
        return Invalid;
      }
      if work.Some? {
        code := AddReadyList(work.value);
        if code != Normal {
          return;
        }
        SyncStatus(work.value, Ready);
      }
      work := Some(t);
      return Normal;
    }

    /** The running thread `t` gives the slot to the head of the ready list. */
    method ReinstallWorkRole(t: nat) returns (code: Code)
      requires work.Some? && Handles(View())
      modifies this
      ensures code == if t != old(work).value then Invalid else if old(ready) == [] then Fault else Normal
      ensures View() == if code == Normal then HandOver(old(View())) else old(View())
    {
      if t != work.value {
        return Invalid;
      }
      if ready == [] {
        return Fault;
      }
      var head := ready[0];
      var detached := DetachReadyList(head);
      work := Some(head);
      SyncStatus(head, Running);
      return Normal;
    }

    // --------------------------------------------------------- operations

    method SwitchThread(t: nat) returns (code: Code)
      requires Handles(View()) && t in threads
      requires threads[t].status == Running ==> work.Some?
      modifies this
      ensures (View(), code) == Switch(old(View()), t)
    {
      var src, dst := threads[t].status, threads[t].target;
      if src == dst || (t == TID_IDLE && dst != Running && dst != Ready) {
        SyncStatus(t, src);
        return Invalid;
      }
      var detached := Normal;
      match src {
        case Running =>
          detached := ReinstallWorkRole(t);
          if detached != Normal {
            SyncStatus(t, src);
            return Invalid;
          }
        case Ready => detached := DetachReadyList(t);
        case Suspend => detached := DetachSuspendList(t);
        case Unset =>
      }
      match dst {
        case Running => code := DespoilWorkRole(t);
        case Ready => code := AddReadyList(t);
        case Suspend => code := AddSuspendList(t);
        case Unset => code := Error;
      }
      if code != Normal || work.None? {
        return;
      }
      SyncStatus(t, dst);
    }

    method RegisterThread(t: nat, priority: nat, hasStack: bool) returns (code: Code)
      requires t < MAX_THREADS
      modifies this
      ensures (View(), code) == Registered(old(View()), t, priority, hasStack)
    {
      if t in threads {
        return Invalid;
      }
      if !hasStack {
        return NoMem;
      }
      threads := threads[t := Thread(Unset, Unset, priority)];
      code := AddReadyList(t);
      SyncStatus(t, Ready);
    }

    method ScheduleThread() returns (switched: bool)
      requires Places(View())
      modifies this
      ensures (View(), switched) == Scheduled(old(View()))
    {
      if ready == [] {
        return false;
      }
      var prev: nat;
      if work.None? {
        if started {
          return false;
        }
        prev := ready[0];
        SetTarget(prev, Running);
      } else {
        prev := work.value;
      }
      if threads[prev].target == Unset {
        SetTarget(prev, Ready);
      }
      assert Placed(old(View()), prev);
      var code := SwitchThread(prev);
      if code != Normal || work.None? {
        return false;
      }
      started := true;
      return true;
    }

    method SelfSuspend() returns (switched: bool)
      requires Places(View()) && work.Some?
      modifies this
      ensures (View(), switched) == SelfSuspended(old(View()))
    {
      PendingPlaces(View());
      SetTarget(work.value, Suspend);
      switched := ScheduleThread();
    }

    method SuspendThread(t: nat) returns (code: Code)
      requires Places(View()) && work.Some? && t in threads
      modifies this
      ensures (View(), code) == SuspendedThread(old(View()), t)
    {
      if t == work.value {
        var switched := SelfSuspend();
        return Normal;
      }
      assert Placed(View(), t);
      SetTarget(t, Suspend);
      code := SwitchThread(t);
    }

    method WakeupThread(t: nat) returns (code: Code)
      requires Handles(View()) && t in threads
      modifies this
      ensures (View(), code) == Woken(old(View()), t)
    {
      if threads[t].status != Suspend {
        return Invalid;
      }
      SetTarget(t, Ready);
      code := SwitchThread(t);
    }
  }
}
