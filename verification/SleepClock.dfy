/**
 * The clock and the timer list updated in place, over the scheduler's table.
 */
module SleepClock {
  import opened Common
  import opened Scheduler
  import opened SchedulerSteps
  import opened SchedulerTable
  import opened Sleep

  class Clock {
    const table: ThreadTable
    var jiffies: nat
    var timers: seq<nat>
    var expires: map<nat, nat>

    ghost function View(): Kernel
      reads this, table
    {
      Kernel(table.View(), jiffies, timers, expires)
    }

    constructor (table: ThreadTable, jiffies: nat)
      ensures this.table == table
      ensures View() == Kernel(table.View(), jiffies, [], map[])
    {
      this.table := table;
      this.jiffies, timers, expires := jiffies, [], map[];
    }

    method FindTimer(t: nat) returns (found: bool)
      ensures found <==> t in timers
    {
      for i := 0 to |timers|
        invariant t !in timers[..i]
      {
        if timers[i] == t {
          return true;
        }
      }
      return false;
    }

    /** Sets the expiry, and puts the timer on the list unless it is there. */
    method SetTimer(t: nat, count: nat)
      modifies this
      ensures View() == ModTimer(old(View()), t, count)
    {
      expires := expires[t := count];
      var found := FindTimer(t);
      if !found {
        timers := timers + [t];
      }
    }

    method DelTimer(t: nat)
      modifies this
      ensures View() == old(View()).(timers := Without(old(timers), t))
    {
      for i := 0 to |timers|
        invariant t !in timers[..i]
        invariant View() == old(View())
      {
        if timers[i] == t {
          WithoutAt(timers, i);
          timers := timers[..i] + timers[i + 1..];
          return;
        }
      }
      WithoutAbsent(timers, t);
    }

    /** The callback of a sleep timer. */
    method SleepTimeout(t: nat, locked: bool)
      requires Handles(table.View()) && t in table.threads
      modifies table
      ensures table.View() == Expire(old(table.View()), t, locked)
    {
      if locked {
        return;
      }
      if table.threads[t].status == Suspend {
        var code := table.WakeupThread(t);
      }
    }

    method DoTimerEvent(locked: bool)
      requires KernelInv(View())
      modifies table
      ensures table.View() == Fired(old(table.View()), timers, expires, jiffies, locked)
    {
      hide Queues, Woken, Placed, Settled;
      ghost var goal := Fired(table.View(), timers, expires, jiffies, locked);
      var i := 0;
      while i < |timers|
        invariant 0 <= i <= |timers|
        invariant Inv(table.View()) && table.View().threads.Keys == old(table.View().threads.Keys)
        invariant goal == Fired(table.View(), timers[i..], expires, jiffies, locked)
      {
        var t := timers[i];
        assert timers[i..][0] == t && timers[i..][1..] == timers[i + 1..];
        ExpireEffect(table.View(), t, locked);
        if expires[t] != 0 {
          if jiffies > expires[t] {
            SleepTimeout(t, locked);
          }
        }
        i := i + 1;
      }
    }

    /** The tick interrupt: the clock counts on, or wraps, and timers run. */
    method SystickIsr(locked: bool)
      requires KernelInv(View())
      modifies this, table
      ensures View() == Next(old(View()), Tick(locked))
    {
      jiffies := if jiffies >= JIFFIES_MAX then 0 else jiffies + 1;
      DoTimerEvent(locked);
    }

    /** A call for a timeout of 0 yields first; the rest of the call is then made
        when the thread runs again. */
    method BeforeTimeout(count: nat)
      requires KernelInv(View())
      modifies this, table
      ensures View() == if count == 0 then Next(old(View()), Sched(Op.Yield)) else old(View())
    {
      if count == 0 {
        var switched := table.ScheduleThread();
      }
    }

    /** Going to sleep: the running thread arms its timer and suspends. It is
        asleep on the timer if and only if it is not idle and another is ready. */
    method EnterTimeout(count: nat)
      requires KernelInv(View()) && table.work.Some?
      modifies this, table
      ensures View() == Entered(old(View()), count)
      ensures Asleep(View(), old(table.work).value, count)
        <==> old(table.work).value != TID_IDLE && old(table.ready) != []
    {
      hide KernelInv, Asleep;
      NextInv(View(), Arm(count));
      FallsAsleepIff(View(), count);
      EnterParts(View());
      SetTimer(table.work.value, count);
      var switched := table.SelfSuspend();
    }

    /** The thread runs again and takes its timer off the list. */
    method LeaveTimeout()
      requires KernelInv(View()) && table.work.Some?
      modifies this
      ensures View() == Next(old(View()), Disarm)
    {
      DelTimer(table.work.value);
    }
  }

  lemma EnterParts(k: Kernel)
    requires KernelInv(k)
    ensures Places(k.table)
  {}
}
