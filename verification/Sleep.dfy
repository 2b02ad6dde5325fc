/**
 * Timed sleep: the timer list of common/generic/time.c driving the wakeups of
 * kernel/sleep.c through the scheduler. A thread that sleeps keeps one timer,
 * on its own stack, so a timer is named here by the thread it belongs to.
 */
module Sleep {
  import opened Common
  import opened Scheduler
  import opened SchedulerSteps
  import SchedulerRuns

  const JIFFIES_MAX: nat := 0xFFFF_FFFF

  datatype Kernel = Kernel(table: Table, jiffies: nat, timers: seq<nat>, expires: map<nat, nat>)

  // ------------------------------------------------------------ operations

  function Advance(jiffies: nat): nat {
    if jiffies >= JIFFIES_MAX then 0 else jiffies + 1
  }

  /** A timer whose expiry is zero is passed over. */
  predicate Due(expires: map<nat, nat>, t: nat, jiffies: nat) {
    t in expires && expires[t] != 0 && jiffies > expires[t]
  }

  /** The callback of one sleep timer; it gives up when the lock is taken. */
  function Expire(tb: Table, t: nat, locked: bool): Table
    requires Handles(tb) && t in tb.threads
  {
    if !locked && tb.threads[t].status == Suspend then Woken(tb, t).0 else tb
  }

  /** One pass over the timer list. */
  ghost function Fired(tb: Table, timers: seq<nat>, expires: map<nat, nat>, jiffies: nat, locked: bool): Table
    requires Inv(tb) && forall t :: t in timers ==> t in tb.threads
    decreases |timers|
  {
    if timers == [] then tb
    else
      assert timers[0] in timers;
      var tb' := if Due(expires, timers[0], jiffies) then Expire(tb, timers[0], locked) else tb;
      ExpireEffect(tb, timers[0], locked);
      Fired(tb', timers[1..], expires, jiffies, locked)
  }

  datatype Event =
    | Sched(op: Op)
    | Arm(count: nat)
    | Disarm
    | Tick(locked: bool)

  ghost predicate KernelInv(k: Kernel) {
    && Inv(k.table)
    && Distinct(k.timers)
    && (forall t :: t in k.timers ==> t in k.table.threads && t in k.expires)
    && k.jiffies <= JIFFIES_MAX
  }

  ghost predicate Allowed(k: Kernel, e: Event) {
    match e
    case Sched(op) => Enabled(k.table, op)
    case Arm(_) => k.table.work.Some?
    case Disarm => k.table.work.Some?
    case Tick(_) => true
  }

  /** The running thread arms and disarms its own timer; a tick advances the
      clock and then runs the timer list. */
  ghost function Next(k: Kernel, e: Event): Kernel
    requires KernelInv(k) && Allowed(k, e)
  {
    match e
    case Sched(op) => k.(table := Step(k.table, op))
    case Arm(count) => ModTimer(k, k.table.work.value, count)
    case Disarm => k.(timers := Without(k.timers, k.table.work.value))
    case Tick(locked) =>
      var j := Advance(k.jiffies);
      k.(jiffies := j, table := Fired(k.table, k.timers, k.expires, j, locked))
  }

  function ModTimer(k: Kernel, t: nat, count: nat): Kernel {
    k.(expires := k.expires[t := count], timers := if t in k.timers then k.timers else k.timers + [t])
  }

  // ------------------------------------------------------------ one tick

  function AfterTick(status: Status, fires: bool): Status {
    if fires && status == Suspend then Ready else status
  }

  lemma ExpireEffect(tb: Table, t: nat, locked: bool)
    requires Inv(tb) && t in tb.threads
    ensures var r := Expire(tb, t, locked);
      && Inv(r) && r.threads.Keys == tb.threads.Keys && r.work == tb.work
      && (forall u :: u in tb.threads && u != t ==> r.threads[u] == tb.threads[u])
      && r.threads[t].status == AfterTick(tb.threads[t].status, !locked)
  {
    StepIsChange(tb, Wakeup(t));
    StepInv(tb, Wakeup(t));
  }

  lemma InvHandles(tb: Table)
    requires Inv(tb)
    ensures Handles(tb)
  {}

  /** A pass over the timers makes ready exactly the suspended threads whose
      timer is due, and only if the lock is free; it moves no other thread. */
  lemma {:induction false} FiredEffect(tb: Table, timers: seq<nat>, expires: map<nat, nat>, jiffies: nat, locked: bool)
    requires Inv(tb) && Distinct(timers) && forall t :: t in timers ==> t in tb.threads
    ensures var r := Fired(tb, timers, expires, jiffies, locked);
      && Inv(r) && r.threads.Keys == tb.threads.Keys && r.work == tb.work
      && forall t :: t in tb.threads ==>
           r.threads[t].status == AfterTick(tb.threads[t].status, !locked && t in timers && Due(expires, t, jiffies))
    decreases |timers|
  {
    hide Inv, Distinct, Expire, Due;
    if timers != [] {
      var t, rest := timers[0], timers[1..];
      TailMembers(timers);
      InvHandles(tb);
      var tb' := if Due(expires, t, jiffies) then Expire(tb, t, locked) else tb;
      ExpireEffect(tb, t, locked);
      FiredEffect(tb', rest, expires, jiffies, locked);
    }
  }

  // ------------------------------------------------------------------ runs

  lemma NextInv(k: Kernel, e: Event)
    requires KernelInv(k) && Allowed(k, e)
    ensures KernelInv(Next(k, e))
  {
    match e
    case Sched(op) =>
      StepInv(k.table, op);
      KeysGrow(k.table, op);
    case Arm(count) =>
    case Disarm => WithoutMembers(k.timers, k.table.work.value);
    case Tick(locked) => FiredEffect(k.table, k.timers, k.expires, Advance(k.jiffies), locked);
  }

  lemma KeysGrow(tb: Table, op: Op)
    requires Places(tb) && Enabled(tb, op)
    ensures tb.threads.Keys <= Step(tb, op).threads.Keys
  {
    StepIsChange(tb, op);
  }

  ghost predicate Legal(k: Kernel, events: seq<Event>)
    requires KernelInv(k)
    decreases |events|
  {
    events == [] || (Allowed(k, events[0]) && (NextInv(k, events[0]); Legal(Next(k, events[0]), events[1..])))
  }

  ghost function Run(k: Kernel, events: seq<Event>): (r: Kernel)
    requires KernelInv(k) && Legal(k, events)
    ensures KernelInv(r)
    decreases |events|
  {
    if events == [] then k else (NextInv(k, events[0]); Run(Next(k, events[0]), events[1..]))
  }

  ghost predicate Has(k: Kernel, t: nat, status: Status) {
    t in k.table.threads && k.table.threads[t].status == status
  }

  /** The timer of `t` is on the list and set to expire at `e`. */
  ghost predicate Armed(k: Kernel, t: nat, e: nat) {
    t in k.timers && t in k.expires && k.expires[t] == e
  }

  /** `t` sleeps on its timer. */
  ghost predicate Asleep(k: Kernel, t: nat, e: nat) {
    Has(k, t, Suspend) && Armed(k, t, e)
  }

  /** Only its own thread takes a timer off the list or resets it. */
  lemma StaysArmed(k: Kernel, event: Event, t: nat, e: nat)
    requires KernelInv(k) && Allowed(k, event) && Armed(k, t, e)
    requires event.Arm? || event.Disarm? ==> k.table.work != Some(t)
    ensures Armed(Next(k, event), t, e)
  {
    if event.Disarm? {
      WithoutMembers(k.timers, k.table.work.value);
    }
  }

  /** What one event does to a thread that is suspended. */
  lemma SuspendedStep(tb: Table, op: Op, t: nat)
    requires Inv(tb) && Enabled(tb, op) && t in tb.threads && tb.threads[t].status == Suspend
    ensures t in Step(tb, op).threads
    ensures Step(tb, op).threads[t].status == if op == Wakeup(t) then Ready else Suspend
  {
    StepIsChange(tb, op);
    assert Placed(tb, t);
    if tb.ready != [] {
      assert Placed(tb, tb.ready[0]);
    }
  }

  /** What an event makes of a sleeping thread: an explicit wakeup, or a tick
      with the lock free at which its timer is due, makes it ready; anything
      else leaves it asleep on the same timer. */
  ghost predicate Wakes(k: Kernel, event: Event, t: nat, e: nat) {
    || event == Sched(Wakeup(t))
    || (event == Tick(false) && e != 0 && Advance(k.jiffies) > e)
  }

  lemma SleeperStep(k: Kernel, event: Event, t: nat, e: nat)
    requires KernelInv(k) && Allowed(k, event) && Asleep(k, t, e)
    ensures Armed(Next(k, event), t, e)
    ensures Has(Next(k, event), t, if Wakes(k, event, t, e) then Ready else Suspend)
  {
    assert k.table.work != Some(t) by { assert Placed(k.table, t); }
    StaysArmed(k, event, t, e);
    match event
    case Sched(op) => SuspendedStep(k.table, op, t);
    case Tick(locked) => FiredEffect(k.table, k.timers, k.expires, Advance(k.jiffies), locked);
    case _ =>
  }

  /** No event of the run wakes `t`. */
  ghost predicate NothingWakes(k: Kernel, events: seq<Event>, t: nat, e: nat)
    requires KernelInv(k) && Legal(k, events)
    decreases |events|
  {
    events == [] ||
    (!Wakes(k, events[0], t, e) && (NextInv(k, events[0]); NothingWakes(Next(k, events[0]), events[1..], t, e)))
  }

  /** At some point of the run `t` is ready. */
  ghost predicate BecomesReady(k: Kernel, events: seq<Event>, t: nat)
    requires KernelInv(k) && Legal(k, events)
    decreases |events|
  {
    Has(k, t, Ready) ||
    (events != [] && (NextInv(k, events[0]); BecomesReady(Next(k, events[0]), events[1..], t)))
  }

  /** A sleeping thread is made ready at some point of a run if and only if
      some event of the run wakes it; otherwise it is still asleep at the end. */
  lemma {:induction false} SleepsUntilWoken(k: Kernel, events: seq<Event>, t: nat, e: nat)
    requires KernelInv(k) && Legal(k, events) && Asleep(k, t, e)
    ensures BecomesReady(k, events, t) <==> !NothingWakes(k, events, t, e)
    ensures NothingWakes(k, events, t, e) ==> Asleep(Run(k, events), t, e)
    decreases |events|
  {
    hide Next, KernelInv;
    if events != [] {
      NextInv(k, events[0]);
      SleeperStep(k, events[0], t, e);
      if !Wakes(k, events[0], t, e) {
        SleepsUntilWoken(Next(k, events[0]), events[1..], t, e);
      } else {
        assert BecomesReady(Next(k, events[0]), events[1..], t);
      }
    }
  }

  /** The clock shows at most `e` after every tick, and nobody wakes `t` by hand. */
  ghost predicate Within(k: Kernel, events: seq<Event>, t: nat, e: nat)
    requires KernelInv(k) && Legal(k, events)
    decreases |events|
  {
    events == [] ||
    (events[0] != Sched(Wakeup(t)) && (events[0].Tick? ==> Advance(k.jiffies) <= e)
     && (NextInv(k, events[0]); Within(Next(k, events[0]), events[1..], t, e)))
  }

  /** A thread is never made ready by its timer while the clock has not passed
      the expiry. */
  lemma {:induction false} NeverWokenEarly(k: Kernel, events: seq<Event>, t: nat, e: nat)
    requires KernelInv(k) && Legal(k, events) && Asleep(k, t, e) && Within(k, events, t, e)
    ensures !BecomesReady(k, events, t) && Asleep(Run(k, events), t, e)
    decreases |events|
  {
    hide Next, KernelInv;
    SleepsUntilWoken(k, events, t, e);
    if events != [] {
      NextInv(k, events[0]);
      SleeperStep(k, events[0], t, e);
      NeverWokenEarly(Next(k, events[0]), events[1..], t, e);
    }
  }

  lemma {:induction false} RunConcat(k: Kernel, a: seq<Event>, b: seq<Event>)
    requires KernelInv(k) && Legal(k, a) && Legal(Run(k, a), b)
    ensures Legal(k, a + b) && Run(k, a + b) == Run(Run(k, a), b)
    decreases |a|
  {
    hide Next, KernelInv;
    if a == [] {
      assert a + b == b;
    } else {
      NextInv(k, a[0]);
      assert (a + b)[0] == a[0] && (a + b)[1..] == a[1..] + b;
      RunConcat(Next(k, a[0]), a[1..], b);
    }
  }

  /** The wakeup of a sleeping thread cannot be lost: by the first tick with
      the lock free at which the clock has passed the expiry, whatever happened
      in between, the thread has been made ready. */
  lemma {:induction false} WokenByFirstFreeTick(k: Kernel, events: seq<Event>, t: nat, e: nat)
    requires KernelInv(k) && Legal(k, events) && Asleep(k, t, e)
    requires e != 0 && Advance(Run(k, events).jiffies) > e
    ensures Legal(k, events + [Tick(false)]) && BecomesReady(k, events + [Tick(false)], t)
    decreases |events|
  {
    hide Next, KernelInv;
    RunConcat(k, events, [Tick(false)]);
    var all := events + [Tick(false)];
    NextInv(k, all[0]);
    SleeperStep(k, all[0], t, e);
    if events == [] {
      assert all[1..] == [];
    } else {
      assert all[0] == events[0] && all[1..] == events[1..] + [Tick(false)];
      if !Wakes(k, all[0], t, e) {
        WokenByFirstFreeTick(Next(k, events[0]), events[1..], t, e);
      } else {
        assert BecomesReady(Next(k, all[0]), all[1..], t);
      }
    }
  }

  /** In the run `t` neither resets nor removes its own timer. */
  ghost predicate LeavesTimer(k: Kernel, events: seq<Event>, t: nat)
    requires KernelInv(k) && Legal(k, events)
    decreases |events|
  {
    events == [] ||
    ((events[0].Arm? || events[0].Disarm? ==> k.table.work != Some(t))
     && (NextInv(k, events[0]); LeavesTimer(Next(k, events[0]), events[1..], t)))
  }

  lemma {:induction false} StaysArmedThroughout(k: Kernel, events: seq<Event>, t: nat, e: nat)
    requires KernelInv(k) && Legal(k, events) && Armed(k, t, e) && LeavesTimer(k, events, t)
    ensures Armed(Run(k, events), t, e)
    decreases |events|
  {
    hide Next, KernelInv;
    if events != [] {
      NextInv(k, events[0]);
      StaysArmed(k, events[0], t, e);
      StaysArmedThroughout(Next(k, events[0]), events[1..], t, e);
    }
  }

  /** The same from the moment the timer is armed: ticks at which it fires
      before its thread has suspended, or while the lock is taken, cost the
      thread nothing. */
  lemma {:induction false} WakeupNotLost(k: Kernel, before: seq<Event>, events: seq<Event>, t: nat, e: nat)
    requires KernelInv(k) && Legal(k, before) && Armed(k, t, e) && LeavesTimer(k, before, t)
    requires Has(Run(k, before), t, Suspend) && Legal(Run(k, before), events)
    requires e != 0 && Advance(Run(Run(k, before), events).jiffies) > e
    ensures Legal(Run(k, before), events + [Tick(false)])
    ensures BecomesReady(Run(k, before), events + [Tick(false)], t)
  {
    StaysArmedThroughout(k, before, t, e);
    WokenByFirstFreeTick(Run(k, before), events, t, e);
  }

  // ------------------------------------------- what the events do, exactly

  /** The clock counts through all 32-bit numbers and wraps. */
  lemma AdvanceWraps(jiffies: nat)
    requires jiffies <= JIFFIES_MAX
    ensures Advance(jiffies) == (jiffies + 1) % (JIFFIES_MAX + 1)
  {}

  /** Arming sets the caller's expiry and lists its timer; no other timer, and
      nothing else, changes. */
  lemma ArmSets(k: Kernel, count: nat, u: nat)
    requires KernelInv(k) && k.table.work.Some?
    ensures var (t, r) := (k.table.work.value, Next(k, Arm(count)));
      && Armed(r, t, count) && Distinct(r.timers)
      && (u != t ==> (u in r.timers <==> u in k.timers) && (u in r.expires <==> u in k.expires))
      && (u != t && u in k.expires ==> r.expires[u] == k.expires[u])
      && r.table == k.table && r.jiffies == k.jiffies
  {
    NextInv(k, Arm(count));
  }

  /** Disarming takes the caller's timer off the list; every other timer stays, and
      nothing else changes. */
  lemma DisarmUnlists(k: Kernel, u: nat)
    requires KernelInv(k) && k.table.work.Some?
    ensures var (t, r) := (k.table.work.value, Next(k, Disarm));
      && (u in r.timers <==> u in k.timers && u != t)
      && r.table == k.table && r.jiffies == k.jiffies && r.expires == k.expires
  {
    WithoutMembers(k.timers, k.table.work.value);
  }

  /** The wakeups of the threads whose timer is due, in the order of the list. */
  function Wakeups(timers: seq<nat>, expires: map<nat, nat>, jiffies: nat): seq<Op> {
    if timers == [] then []
    else (if Due(expires, timers[0], jiffies) then [Wakeup(timers[0])] else []) + Wakeups(timers[1..], expires, jiffies)
  }

  /** A timer is due exactly when it is set, its expiry is not zero, and the clock
      has passed it. */
  lemma {:induction false} WakeupsAre(timers: seq<nat>, expires: map<nat, nat>, jiffies: nat, t: nat)
    ensures Wakeup(t) in Wakeups(timers, expires, jiffies)
      <==> t in timers && t in expires && 0 < expires[t] < jiffies
  {
    if timers != [] {
      assert timers == [timers[0]] + timers[1..];
      WakeupsAre(timers[1..], expires, jiffies, t);
    }
  }

  /** A pass over the timers with the lock free is that run of wakeups; under the
      lock it does nothing. */
  lemma {:induction false} FiredIsRun(tb: Table, timers: seq<nat>, expires: map<nat, nat>, jiffies: nat)
    requires Inv(tb) && forall t :: t in timers ==> t in tb.threads
    ensures var ops := Wakeups(timers, expires, jiffies);
      SchedulerRuns.Legal(tb, ops) && Fired(tb, timers, expires, jiffies, false) == SchedulerRuns.Run(tb, ops)
    ensures Fired(tb, timers, expires, jiffies, true) == tb
    decreases |timers|
  {
    hide Inv, Due, Woken;
    if timers != [] {
      var t, rest := timers[0], timers[1..];
      var ops := Wakeups(rest, expires, jiffies);
      assert t in timers && timers == [t] + rest;
      InvHandles(tb);
      FiredIsRun(tb, rest, expires, jiffies);
      ExpireEffect(tb, t, false);
      ExpireEffect(tb, t, true);
      if Due(expires, t, jiffies) {
        ExpireIsWakeup(tb, t);
        FiredIsRun(Expire(tb, t, false), rest, expires, jiffies);
        assert ([Wakeup(t)] + ops)[1..] == ops;
      } else {
        assert [] + ops == ops;
      }
    }
  }

  lemma ExpireIsWakeup(tb: Table, t: nat)
    requires Inv(tb) && t in tb.threads
    ensures Enabled(tb, Wakeup(t)) && Places(tb) && Expire(tb, t, false) == Step(tb, Wakeup(t))
  {}

  // ------------------------------------------------------- exact deadlines

  function Ticks(events: seq<Event>): nat {
    if events == [] then 0 else (if events[0].Tick? then 1 else 0) + Ticks(events[1..])
  }

  lemma {:induction false} ClockCountsTicks(k: Kernel, events: seq<Event>)
    requires KernelInv(k) && Legal(k, events) && k.jiffies + Ticks(events) <= JIFFIES_MAX
    ensures Run(k, events).jiffies == k.jiffies + Ticks(events)
    decreases |events|
  {
    if events != [] {
      NextInv(k, events[0]);
      ClockCountsTicks(Next(k, events[0]), events[1..]);
    }
  }

  /** A thread asleep until `e` is ready by the tick number e - jiffies + 1,
      provided that tick finds the lock free, and not before. */
  lemma {:induction false} WokenOnTime(k: Kernel, events: seq<Event>, t: nat, e: nat)
    requires KernelInv(k) && Legal(k, events) && Asleep(k, t, e)
    requires k.jiffies <= e < JIFFIES_MAX && e != 0 && Ticks(events) == e - k.jiffies
    ensures Legal(k, events + [Tick(false)]) && BecomesReady(k, events + [Tick(false)], t)
    ensures (forall i :: 0 <= i < |events| ==> events[i] != Sched(Wakeup(t))) ==> !BecomesReady(k, events, t)
  {
    ClockCountsTicks(k, events);
    WokenByFirstFreeTick(k, events, t, e);
    if forall i :: 0 <= i < |events| ==> events[i] != Sched(Wakeup(t)) {
      FewTicksWithin(k, events, t, e);
      NeverWokenEarly(k, events, t, e);
    }
  }

  lemma {:induction false} FewTicksWithin(k: Kernel, events: seq<Event>, t: nat, e: nat)
    requires KernelInv(k) && Legal(k, events) && k.jiffies + Ticks(events) <= e < JIFFIES_MAX
    requires forall i :: 0 <= i < |events| ==> events[i] != Sched(Wakeup(t))
    ensures Within(k, events, t, e)
    decreases |events|
  {
    if events != [] {
      NextInv(k, events[0]);
      FewTicksWithin(Next(k, events[0]), events[1..], t, e);
    }
  }

  /** Some run without an explicit wakeup makes `t` ready. */
  ghost predicate CanTimeOut(k: Kernel, t: nat)
    requires KernelInv(k)
  {
    exists events: seq<Event> ::
      Legal(k, events) && BecomesReady(k, events, t) && Sched(Wakeup(t)) !in events
  }

  /** Sleep on a timer ends by itself exactly when the expiry is neither zero,
      which the timer list skips, nor the last value of the clock, which the
      clock never passes. */
  lemma SleepEndsIff(k: Kernel, t: nat, e: nat)
    requires KernelInv(k) && Asleep(k, t, e)
    ensures CanTimeOut(k, t) <==> 0 < e < JIFFIES_MAX
  {
    if 0 < e < JIFFIES_MAX {
      var events := TickUntilReady(k, t, e);
    } else {
      forall events: seq<Event> | Legal(k, events) && Sched(Wakeup(t)) !in events
        ensures !BecomesReady(k, events, t)
      {
        NeverDue(k, events, t, e);
        SleepsUntilWoken(k, events, t, e);
      }
    }
  }

  lemma {:induction false} NeverDue(k: Kernel, events: seq<Event>, t: nat, e: nat)
    requires KernelInv(k) && Legal(k, events) && Sched(Wakeup(t)) !in events
    requires e == 0 || e >= JIFFIES_MAX
    ensures NothingWakes(k, events, t, e)
    decreases |events|
  {
    if events != [] {
      NextInv(k, events[0]);
      assert events[0] in events;
      NeverDue(Next(k, events[0]), events[1..], t, e);
    }
  }

  lemma TickUntilReady(k: Kernel, t: nat, e: nat) returns (events: seq<Event>)
    requires KernelInv(k) && Asleep(k, t, e) && 0 < e < JIFFIES_MAX
    ensures Legal(k, events) && BecomesReady(k, events, t) && Sched(Wakeup(t)) !in events
    decreases if k.jiffies > e then e + 2 else e + 1 - k.jiffies
  {
    var k' := Next(k, Tick(false));
    NextInv(k, Tick(false));
    SleeperStep(k, Tick(false), t, e);
    if Wakes(k, Tick(false), t, e) {
      events := [Tick(false)];
      assert events[1..] == [];
    } else {
      var rest := TickUntilReady(k', t, e);
      events := [Tick(false)] + rest;
      assert events[0] == Tick(false) && events[1..] == rest;
    }
  }

  // -------------------------------------------------------- going to sleep

  /** What going to sleep makes of the system: the running thread arms its timer
      and asks to be suspended. */
  ghost function Entered(k: Kernel, count: nat): (r: Kernel)
    requires KernelInv(k) && k.table.work.Some?
    ensures KernelInv(r)
  {
    NextInv(k, Arm(count));
    NextInv(Next(k, Arm(count)), Sched(SelfSuspend));
    Next(Next(k, Arm(count)), Sched(SelfSuspend))
  }

  /** The caller is asleep on its timer afterwards if and only if it is not idle
      and some other thread is ready; otherwise it keeps running, with its timer
      armed. */
  lemma {:induction false} FallsAsleepIff(k: Kernel, count: nat)
    requires KernelInv(k) && k.table.work.Some?
    ensures var (t, r) := (k.table.work.value, Entered(k, count));
      && Armed(r, t, count)
      && (Asleep(r, t, count) <==> t != TID_IDLE && k.table.ready != [])
      && (!Asleep(r, t, count) ==> r.table.work == Some(t))
  {
    hide KernelInv, SelfSuspended, Inv;
    EnteredIs(k, count);
    SchedulerRuns.SelfSuspendIff(k.table) by { KernelTable(k); }
  }

  lemma KernelTable(k: Kernel)
    requires KernelInv(k)
    ensures Inv(k.table) && Places(k.table)
  {}

  lemma EnteredIs(k: Kernel, count: nat)
    requires KernelInv(k) && k.table.work.Some?
    ensures Inv(k.table) && Places(k.table)
    ensures Entered(k, count) == ModTimer(k, k.table.work.value, count).(table := SelfSuspended(k.table).0)
  {
    hide KernelInv, SelfSuspended;
    KernelTable(k);
  }

  /** Going to sleep from start to end: when idle is registered and scheduling
      has begun, any other thread that calls for a timeout is asleep on its timer,
      and it is made ready by the first tick that finds the lock free and the
      clock past the count, whatever happens until then; and not before, unless
      somebody wakes it. */
  lemma {:induction false} TimeoutOnTime(k: Kernel, count: nat, events: seq<Event>)
    requires KernelInv(k) && k.table.started && TID_IDLE in k.table.threads && k.table.work != Some(TID_IDLE)
    requires k.table.work.Some? && Legal(Entered(k, count), events)
    ensures var (t, r) := (k.table.work.value, Entered(k, count));
      && Asleep(r, t, count)
      && (0 < count < Advance(Run(r, events).jiffies) ==>
            Legal(r, events + [Tick(false)]) && BecomesReady(r, events + [Tick(false)], t))
      && (Within(r, events, t, count) ==> !BecomesReady(r, events, t))
  {
    hide Entered, Run;
    var (t, r) := (k.table.work.value, Entered(k, count));
    SchedulerRuns.AlwaysAThreadToRun(k.table);
    FallsAsleepIff(k, count);
    if 0 < count < Advance(Run(r, events).jiffies) {
      WokenByFirstFreeTick(r, events, t, count);
    }
    if Within(r, events, t, count) {
      NeverWokenEarly(r, events, t, count);
    }
  }

  /** Such a timeout can end by itself if and only if 0 < count < JIFFIES_MAX. */
  lemma {:induction false} TimeoutEndsIff(k: Kernel, count: nat)
    requires KernelInv(k) && k.table.started && TID_IDLE in k.table.threads && k.table.work != Some(TID_IDLE)
    requires k.table.work.Some?
    ensures CanTimeOut(Entered(k, count), k.table.work.value) <==> 0 < count < JIFFIES_MAX
  {
    hide Entered;
    SchedulerRuns.AlwaysAThreadToRun(k.table);
    FallsAsleepIff(k, count);
    SleepEndsIff(Entered(k, count), k.table.work.value, count);
  }

  // ------------------------------------------- suspended without a timer

  /** A thread that is suspended while its timer is off the list stays so until
      somebody wakes it. */
  lemma {:induction false} UnarmedStaysSuspended(k: Kernel, events: seq<Event>, t: nat)
    requires KernelInv(k) && Legal(k, events) && Has(k, t, Suspend) && t !in k.timers && Sched(Wakeup(t)) !in events
    ensures !BecomesReady(k, events, t)
    decreases |events|
  {
    if events != [] {
      UnarmedStep(k, events[0], t);
      hide Next, KernelInv;
      NextInv(k, events[0]);
      UnarmedStaysSuspended(Next(k, events[0]), events[1..], t);
    }
  }

  lemma UnarmedStep(k: Kernel, event: Event, t: nat)
    requires KernelInv(k) && Allowed(k, event) && Has(k, t, Suspend) && t !in k.timers && event != Sched(Wakeup(t))
    ensures Has(Next(k, event), t, Suspend) && t !in Next(k, event).timers
  {
    hide Fired;
    assert k.table.work != Some(t) by { assert Placed(k.table, t); }
    match event
    case Sched(op) => SuspendedStep(k.table, op, t);
    case Tick(locked) => FiredEffect(k.table, k.timers, k.expires, Advance(k.jiffies), locked);
    case Disarm => WithoutMembers(k.timers, k.table.work.value);
    case Arm(_) =>
  }

  lemma Cons(k: Kernel, event: Event, next: Kernel, rest: seq<Event>, end: Kernel)
    requires KernelInv(k) && Allowed(k, event) && Next(k, event) == next
    requires KernelInv(next) && Legal(next, rest) && Run(next, rest) == end
    ensures Legal(k, [event] + rest) && Run(k, [event] + rest) == end
  {
    assert ([event] + rest)[1..] == rest;
  }

  /** A state of the run below: the scheduler's table, and thread 1's timer. */
  ghost function Late(table: Table, jiffies: nat, count: nat, listed: bool): Kernel {
    Kernel(table, jiffies, if listed then [1] else [], map[1 := count])
  }

  lemma LateSteps(jiffies: nat, count: nat)
    requires jiffies <= JIFFIES_MAX
    ensures var start := Kernel(SchedulerRuns.RUNS, jiffies, [], map[]);
      KernelInv(start) && Next(start, Arm(count)) == Late(SchedulerRuns.RUNS, jiffies, count, true)
    ensures var k := Late(SchedulerRuns.RUNS, jiffies, count, true);
      KernelInv(k) && Next(k, Sched(SelfSuspend)) == Late(SchedulerRuns.ASKS, jiffies, count, true)
    ensures var k := Late(SchedulerRuns.ASKS, jiffies, count, true);
      KernelInv(k) && Next(k, Disarm) == Late(SchedulerRuns.ASKS, jiffies, count, false)
    ensures var k := Late(SchedulerRuns.ASKS, jiffies, count, false);
      && KernelInv(k)
      && Next(k, Sched(Register(2, 5, true))) == Late(SchedulerRuns.JOINED, jiffies, count, false)
    ensures KernelInv(Late(SchedulerRuns.JOINED, jiffies, count, false))
  {
    hide Inv, Registered, Scheduled, SelfSuspended;
    SchedulerRuns.PendingRun();
    assert Without([1], 1) == [];
  }

  /** What happens without idle: thread 1 calls for a timeout while nobody is
      ready, so it keeps running and takes its timer off the list; its request
      stays pending, and when thread 2 has come, a yield suspends it with no timer
      to wake it. */
  lemma LateSuspendNeverEnds(jiffies: nat, count: nat)
    requires jiffies <= JIFFIES_MAX
    ensures var k := Kernel(SchedulerRuns.RUNS, jiffies, [], map[]);
      var late := [Disarm] + ([Sched(Register(2, 5, true))] + [Sched(Op.Yield)]);
      var events := [Arm(count)] + ([Sched(SelfSuspend)] + late);
      && KernelInv(k) && k.table.work == Some(1) && Legal(k, events)
      && Has(Run(k, events), 1, Suspend) && !CanTimeOut(Run(k, events), 1)
  {
    LateSteps(jiffies, count);
    LateYield(jiffies, count);
    hide KernelInv, Next, Late, Legal, Run;
    var k1, k2 := Late(SchedulerRuns.RUNS, jiffies, count, true), Late(SchedulerRuns.ASKS, jiffies, count, true);
    var k3, k4 := Late(SchedulerRuns.ASKS, jiffies, count, false), Late(SchedulerRuns.JOINED, jiffies, count, false);
    var end := Next(k4, Sched(Op.Yield));
    var e3 := [Sched(Register(2, 5, true))] + [Sched(Op.Yield)];
    Cons(k3, Sched(Register(2, 5, true)), k4, [Sched(Op.Yield)], end);
    Cons(k2, Disarm, k3, e3, end);
    Cons(k1, Sched(SelfSuspend), k2, [Disarm] + e3, end);
    Cons(Kernel(SchedulerRuns.RUNS, jiffies, [], map[]), Arm(count), k1, [Sched(SelfSuspend)] + ([Disarm] + e3), end);
  }

  lemma LateYield(jiffies: nat, count: nat)
    requires KernelInv(Late(SchedulerRuns.JOINED, jiffies, count, false))
    ensures var k := Late(SchedulerRuns.JOINED, jiffies, count, false); var end := Next(k, Sched(Op.Yield));
      && KernelInv(end) && Legal(k, [Sched(Op.Yield)]) && Run(k, [Sched(Op.Yield)]) == end
      && Has(end, 1, Suspend) && !CanTimeOut(end, 1)
  {
    hide Scheduled, Inv;
    SchedulerRuns.PendingRun();
    var k := Late(SchedulerRuns.JOINED, jiffies, count, false);
    var end := Next(k, Sched(Op.Yield));
    NextInv(k, Sched(Op.Yield));
    assert Legal(end, []) && Run(end, []) == end;
    Cons(k, Sched(Op.Yield), end, [], end);
    assert [Sched(Op.Yield)] + [] == [Sched(Op.Yield)];
    forall es: seq<Event> | Legal(end, es) && Sched(Wakeup(1)) !in es ensures !BecomesReady(end, es, 1) {
      UnarmedStaysSuspended(end, es, 1);
    }
  }
}
