/**
 * What each scheduler operation answers, and what it does where it refuses.
 */
module SchedulerCodes {
  import opened Common
  import opened Scheduler
  import opened SchedulerSteps

  /** A schedule hands out a context exactly when the slot changes hands. */
  lemma ScheduledIff(tb: Table)
    requires Inv(tb)
    ensures Scheduled(tb).1 <==> Scheduled(tb).0.work != tb.work
    ensures Scheduled(tb).1 <==>
      tb.ready != [] && !(tb.work == Some(TID_IDLE) && tb.threads[TID_IDLE].target == Suspend)
    ensures Scheduled(tb).1 ==> Scheduled(tb).0.work == Some(tb.ready[0])
  {
    if tb.ready != [] {
      assert Placed(tb, tb.ready[0]);
      if tb.work.None? {
        ScheduleLaunches(tb);
      } else {
        var t := tb.work.value;
        assert Placed(tb, t) && Settled(tb, t);
        if tb.threads[t].target == Unset {
          SwitchRelieves(tb, Ready);
        } else if t != TID_IDLE {
          assert Request(tb, t, Suspend).threads == tb.threads;
          SwitchRelieves(tb, Suspend);
        }
      }
    }
  }

  /** So does a self-suspension. */
  lemma SelfSuspendedIff(tb: Table)
    requires Inv(tb) && tb.work.Some?
    ensures SelfSuspended(tb).1 <==> SelfSuspended(tb).0.work != tb.work
    ensures SelfSuspended(tb).1 <==> tb.ready != [] && tb.work != Some(TID_IDLE)
  {
    PendingInv(tb);
    ScheduledIff(Request(tb, tb.work.value, Suspend));
  }

  /** A wakeup succeeds exactly when the thread is suspended, and makes it ready;
      otherwise it changes nothing. */
  lemma WokenIff(tb: Table, t: nat)
    requires Inv(tb) && t in tb.threads
    ensures Woken(tb, t) ==
      if tb.threads[t].status == Suspend then (Moved(tb, t, Ready), Normal) else (tb, Invalid)
  {
    assert Placed(tb, t);
    if tb.threads[t].status == Suspend {
      SwitchMoves(tb, t, Ready);
    }
  }

  /** Suspending another thread succeeds exactly when that is ready and not idle,
      and otherwise changes nothing; suspending oneself always succeeds. */
  lemma SuspendedThreadIff(tb: Table, t: nat)
    requires Inv(tb) && tb.work.Some? && t in tb.threads
    ensures SuspendedThread(tb, t).1 == Normal
      <==> t == tb.work.value || (tb.threads[t].status == Ready && t != TID_IDLE)
    ensures SuspendedThread(tb, t) ==
      if t == tb.work.value then (SelfSuspended(tb).0, Normal)
      else if tb.threads[t].status == Ready && t != TID_IDLE then (Moved(tb, t, Suspend), Normal)
      else (tb, Invalid)
  {
    assert Placed(tb, t) && Settled(tb, t);
    if t != tb.work.value {
      if tb.threads[t].status == Ready && t != TID_IDLE {
        SwitchMoves(tb, t, Suspend);
      } else {
        assert Sync(Request(tb, t, Suspend), t, tb.threads[t].status).threads == tb.threads;
      }
    }
  }

  /** A switch is refused when it leads nowhere, when it would put idle anywhere but
      in the slot or on the ready list, or when the running thread has nobody to
      hand over to; the request is dropped, and nothing else changes. */
  lemma SwitchRefuses(tb: Table, t: nat, dst: Status)
    requires Handles(tb) && t in tb.threads && (tb.threads[t].status == Running ==> tb.work.Some?)
    requires
      || tb.threads[t].status == dst
      || (t == TID_IDLE && dst != Running && dst != Ready)
      || (tb.threads[t].status == Running && (tb.work != Some(t) || tb.ready == []))
    ensures Switch(Request(tb, t, dst), t) ==
      (tb.(threads := tb.threads[t := Thread(tb.threads[t].status, Unset, tb.threads[t].priority)]), Invalid)
  {
    var status := tb.threads[t].status;
    assert Sync(Request(tb, t, dst), t, status).threads
      == tb.threads[t := Thread(status, Unset, tb.threads[t].priority)];
  }

  /** A ready thread that is switched to running takes the slot, and the thread
      that held it goes to the ready list. */
  lemma SwitchDespoils(tb: Table, t: nat)
    requires Handles(tb) && t in tb.threads && tb.threads[t].status == Ready
    requires tb.work.Some? && tb.work.value != t && tb.threads[tb.work.value].status == Running
    ensures var prev := tb.work.value;
      Switch(Request(tb, t, Running), t) ==
        (tb.(threads := Put(Put(tb.threads, prev, Ready), t, Running),
             ready := Enqueue(tb.threads, Without(tb.ready, t), prev), work := Some(t)), Normal)
  {
    hide Enqueue, Without;
    var prev, req := tb.work.value, Request(tb, t, Running);
    var list := Without(tb.ready, t);
    assert Enqueue(req.threads, list, prev) == Enqueue(tb.threads, list, prev) by {
      EnqueueCongruent(req.threads, tb.threads, list, prev);
    }
    var left := Detach(req, t);
    assert Sync(Enter(left, t, Running).0, t, Running).threads == Put(Put(tb.threads, prev, Ready), t, Running);
  }

  /** A switch to no status at all takes a listed thread off its list and then
      fails: the thread is left detached. */
  lemma SwitchToUnset(tb: Table, t: nat)
    requires Handles(tb) && t in tb.threads && t != TID_IDLE && tb.threads[t].status == Ready
    ensures Switch(Request(tb, t, Unset), t) ==
      (Request(tb, t, Unset).(ready := Without(tb.ready, t)), Error)
  {}
}
