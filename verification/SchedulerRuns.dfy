/**
 * What every run of the scheduler keeps: one place per thread, priority order,
 * first come first served among equals, and a thread to run at all times.
 */
module SchedulerRuns {
  import opened Common
  import opened Scheduler
  import opened SchedulerSteps

  // ------------------------------------------------------------------- runs

  /** Each operation of `ops` is one its caller may make when it is made. */
  ghost predicate Legal(tb: Table, ops: seq<Op>)
    requires Inv(tb)
    decreases |ops|
  {
    ops == [] || (Enabled(tb, ops[0]) && (StepInv(tb, ops[0]); Legal(Step(tb, ops[0]), ops[1..])))
  }

  ghost function Run(tb: Table, ops: seq<Op>): (r: Table)
    requires Inv(tb) && Legal(tb, ops)
    ensures Inv(r)
    decreases |ops|
  {
    if ops == [] then tb else (StepInv(tb, ops[0]); Run(Step(tb, ops[0]), ops[1..]))
  }

  lemma EmptyInv()
    ensures Inv(EMPTY)
  {}

  ghost predicate FromBoot(ops: seq<Op>) {
    EmptyInv();
    Legal(EMPTY, ops)
  }

  /** The table after a run from boot. */
  ghost function Booted(ops: seq<Op>): (r: Table)
    requires FromBoot(ops)
    ensures Inv(r)
  {
    EmptyInv();
    Run(EMPTY, ops)
  }

  /** Every thread registered by a run from boot is in exactly one of the
      running slot, the ready list and the suspend list, once, and its status
      says which; both lists are in priority order. */
  lemma RunKeepsPlaces(ops: seq<Op>)
    requires FromBoot(ops)
    ensures var tb := Booted(ops);
      && Sorted(tb.threads, tb.ready) && Sorted(tb.threads, tb.suspended)
      && Population(tb) == multiset(tb.threads.Keys)
      && forall t :: t in tb.threads ==> Placed(tb, t)
  {
    PopulationIsKeys(Booted(ops));
  }

  // ----------------------------------------------------------- conservation

  ghost function Population(tb: Table): multiset<nat> {
    multiset(tb.ready) + multiset(tb.suspended)
    + (if tb.work.Some? then multiset{tb.work.value} else multiset{})
  }

  lemma {:induction false} DistinctCounts(list: seq<nat>, t: nat)
    requires Distinct(list)
    ensures multiset(list)[t] == if t in list then 1 else 0
  {
    if list != [] {
      assert list == [list[0]] + list[1..];
      assert forall j :: 0 < j < |list| ==> list[j] == list[1..][j - 1];
      DistinctCounts(list[1..], t);
    }
  }

  lemma PopulationIsKeys(tb: Table)
    requires Inv(tb)
    ensures Population(tb) == multiset(tb.threads.Keys)
  {
    forall t: nat ensures Population(tb)[t] == multiset(tb.threads.Keys)[t] {
      DistinctCounts(tb.ready, t);
      DistinctCounts(tb.suspended, t);
      if t in tb.threads {
        assert Placed(tb, t);
      }
    }
  }

  /** No operation loses or gains a thread, except that a registration that
      succeeds adds the one thread it registers. */
  lemma {:induction false} StepConserves(tb: Table, op: Op)
    requires Inv(tb) && Enabled(tb, op)
    ensures Population(Step(tb, op)) == Population(tb)
            + (if op.Register? && op.hasStack && op.tid !in tb.threads then multiset{op.tid} else multiset{})
  {
    hide Step, Population;
    StepInv(tb, op);
    PopulationIsKeys(tb);
    PopulationIsKeys(Step(tb, op));
    StepKeys(tb, op);
  }

  lemma StepKeys(tb: Table, op: Op)
    requires Places(tb) && Enabled(tb, op)
    ensures Step(tb, op).threads.Keys == tb.threads.Keys
            + (if op.Register? && op.hasStack && op.tid !in tb.threads then {op.tid} else {})
  {
    StepIsChange(tb, op);
    ChangeKeys(tb, ChangeOf(tb, op));
  }

  lemma ChangeKeys(tb: Table, c: Change)
    requires Handles(tb) && Possible(tb, c)
    ensures Apply(tb, c).threads.Keys == tb.threads.Keys + (if c.Admit? then {c.tid} else {})
  {}

  // -------------------------------------------------------------- liveness

  /** Once idle is registered and scheduling has begun there is always exactly
      one running thread, idle is never suspended, and a thread other than
      idle that gives up the processor always hands it over. */
  lemma AlwaysAThreadToRun(tb: Table)
    requires Inv(tb) && tb.started && TID_IDLE in tb.threads
    ensures tb.work.Some? && tb.threads[tb.work.value].status == Running
    ensures forall t :: t in tb.threads && tb.threads[t].status == Running ==> tb.work == Some(t)
    ensures tb.threads[TID_IDLE].status != Suspend
    ensures tb.work != Some(TID_IDLE) ==> tb.ready != []
    ensures tb.work != Some(TID_IDLE) ==> Scheduled(tb).1 && SelfSuspended(tb).1
  {
    assert Placed(tb, TID_IDLE);
    var t := tb.work.value;
    assert Placed(tb, t) && Settled(tb, t);
    forall u | u in tb.threads && tb.threads[u].status == Running ensures tb.work == Some(u) {
      assert Placed(tb, u);
    }
    if t != TID_IDLE {
      GivesUpToHead(tb);
      SuspendGivesUpToHead(tb);
    }
  }

  lemma GivesUpToHead(tb: Table)
    requires Places(tb) && tb.work.Some? && tb.work.value != TID_IDLE && tb.ready != []
    ensures Scheduled(tb).1
  {
    var t := tb.work.value;
    assert Placed(tb, t) && Settled(tb, t) && Placed(tb, tb.ready[0]);
    if tb.threads[t].target == Unset {
      SwitchRelieves(tb, Ready);
    } else {
      assert Request(tb, t, Suspend).threads == tb.threads;
      SwitchRelieves(tb, Suspend);
    }
  }

  lemma SuspendGivesUpToHead(tb: Table)
    requires Places(tb) && tb.work.Some? && tb.work.value != TID_IDLE && tb.ready != []
    ensures SelfSuspended(tb).1
  {
    assert Placed(tb, tb.work.value);
    PendingPlaces(tb);
    GivesUpToHead(Request(tb, tb.work.value, Suspend));
  }

  /** Scheduling, once begun, and a registration, once made, are for good. */
  lemma {:induction false} RunKeepsStarted(tb: Table, ops: seq<Op>)
    requires Inv(tb) && Legal(tb, ops)
    ensures tb.started ==> Run(tb, ops).started
    ensures tb.threads.Keys <= Run(tb, ops).threads.Keys
    decreases |ops|
  {
    if ops != [] {
      StepInv(tb, ops[0]);
      StepIsChange(tb, ops[0]);
      StepKeys(tb, ops[0]);
      RunKeepsStarted(Step(tb, ops[0]), ops[1..]);
    }
  }

  /** A thread that suspends itself is suspended, and the head of the ready list
      runs in its place, if and only if it is not idle and a thread is ready;
      otherwise it keeps running. */
  lemma {:induction false} SelfSuspendIff(tb: Table)
    requires Inv(tb) && tb.work.Some?
    ensures var (t, r) := (tb.work.value, SelfSuspended(tb).0);
      && t in r.threads
      && (r.threads[t].status == Suspend <==> t != TID_IDLE && tb.ready != [])
      && (t != TID_IDLE && tb.ready != [] ==> r == Relieved(tb, Suspend) && r.work == Some(tb.ready[0]))
      && (t == TID_IDLE || tb.ready == [] ==> r.work == Some(t) && r.threads[t].status == Running)
  {
    SelfSuspendIs(tb);
    assert Placed(tb, tb.work.value);
    if tb.ready != [] {
      assert Placed(tb, tb.ready[0]);
    }
  }

  // ------------------------------------------------------- pending requests

  /** No thread but idle has a request pending. */
  ghost predicate Quiet(tb: Table) {
    forall t :: t in tb.threads && t != TID_IDLE ==> tb.threads[t].target == Unset
  }

  lemma ApplyQuiet(tb: Table, c: Change)
    requires Handles(tb) && Possible(tb, c) && Quiet(tb) && (c.Pending? ==> tb.work == Some(TID_IDLE))
    ensures Quiet(Apply(tb, c))
  {
    hide Enqueue, Without;
  }

  /** Only idle can be left waiting for somebody to hand over to. */
  lemma PendingIsIdle(tb: Table, op: Op)
    requires Inv(tb) && Enabled(tb, op) && TID_IDLE in tb.threads && ChangeOf(tb, op).Pending?
    ensures tb.work == Some(TID_IDLE)
  {
    assert tb.ready == [] && tb.work.Some?;
    AlwaysAThreadToRun(tb);
  }

  lemma StepQuiet(tb: Table, op: Op)
    requires Inv(tb) && Enabled(tb, op) && TID_IDLE in tb.threads && Quiet(tb)
    ensures TID_IDLE in Step(tb, op).threads && Quiet(Step(tb, op))
  {
    hide Apply, Possible, Quiet, Step, ChangeOf, Enabled;
    StepKeys(tb, op);
    StepIsChange(tb, op);
    if ChangeOf(tb, op).Pending? {
      PendingIsIdle(tb, op);
    }
    ApplyQuiet(tb, ChangeOf(tb, op));
  }

  lemma {:induction false} RunQuiet(tb: Table, ops: seq<Op>)
    requires Inv(tb) && Legal(tb, ops) && TID_IDLE in tb.threads && Quiet(tb)
    ensures TID_IDLE in Run(tb, ops).threads && Quiet(Run(tb, ops))
    decreases |ops|
  {
    hide Quiet, Step;
    if ops != [] {
      StepInv(tb, ops[0]);
      StepQuiet(tb, ops[0]);
      RunQuiet(Step(tb, ops[0]), ops[1..]);
    }
  }

  /** When idle is registered before scheduling begins, no thread other than
      idle has a request pending between two operations, ever. */
  lemma QuietRuns(before: seq<Op>, ops: seq<Op>)
    requires FromBoot(before) && Legal(Booted(before), ops)
    requires !Booted(before).started && TID_IDLE in Booted(before).threads
    ensures Quiet(Run(Booted(before), ops))
  {
    var tb := Booted(before);
    forall t | t in tb.threads ensures tb.threads[t].target == Unset {
      assert Settled(tb, t);
    }
    RunQuiet(tb, ops);
  }

  // --------------------------------------------------- first come, first served

  type Arrivals = map<nat, nat>

  function Arrival(arrivals: Arrivals, t: nat): nat {
    if t in arrivals then arrivals[t] else 0
  }

  /** The step at which each thread took up its present status. */
  ghost function Stamped(arrivals: Arrivals, before: Table, after: Table, now: nat): Arrivals {
    map t | t in after.threads ::
      if t in before.threads && before.threads[t].status == after.threads[t].status
      then Arrival(arrivals, t) else now
  }

  ghost predicate Before(threads: Threads, arrivals: Arrivals, a: nat, b: nat) {
    Prio(threads, a) < Prio(threads, b)
    || (Prio(threads, a) == Prio(threads, b) && Arrival(arrivals, a) < Arrival(arrivals, b))
  }

  ghost predicate InOrder(threads: Threads, arrivals: Arrivals, list: seq<nat>) {
    forall i, j :: 0 <= i < j < |list| ==> Before(threads, arrivals, list[i], list[j])
  }

  ghost predicate Fifo(tb: Table, arrivals: Arrivals, now: nat) {
    && (forall t :: t in tb.threads ==> Arrival(arrivals, t) < now)
    && InOrder(tb.threads, arrivals, tb.ready)
    && InOrder(tb.threads, arrivals, tb.suspended)
  }

  lemma KeepInOrder(a: Threads, b: Threads, arr0: Arrivals, arr: Arrivals, list: seq<nat>)
    requires InOrder(a, arr0, list)
    requires forall u :: u in list ==> Prio(a, u) == Prio(b, u) && Arrival(arr0, u) == Arrival(arr, u)
    ensures InOrder(b, arr, list)
  {
    forall i, j | 0 <= i < j < |list| ensures Before(b, arr, list[i], list[j]) {
      assert list[i] in list && list[j] in list;
    }
  }

  lemma InsertInOrder(threads: Threads, arr: Arrivals, list: seq<nat>, k: nat, t: nat)
    requires InOrder(threads, arr, list) && k <= |list|
    requires k > 0 ==> Prio(threads, list[k - 1]) <= Prio(threads, t)
    requires forall i :: k <= i < |list| ==> Prio(threads, t) < Prio(threads, list[i])
    requires forall i :: 0 <= i < |list| ==> Arrival(arr, list[i]) < Arrival(arr, t)
    ensures InOrder(threads, arr, list[..k] + [t] + list[k..])
  {
    var r := list[..k] + [t] + list[k..];
    forall i, j | 0 <= i < j < |r| ensures Before(threads, arr, r[i], r[j]) {
      if i < k {
        assert i < k - 1 ==> Before(threads, arr, list[i], list[k - 1]);
        assert Before(threads, arr, list[i], t);
      }
    }
  }

  /** A newcomer with the newest stamp goes in first come, first served order. */
  lemma EnqueueInOrder(threads: Threads, arr: Arrivals, list: seq<nat>, t: nat)
    requires InOrder(threads, arr, list) && t !in list
    requires forall u :: u in list ==> Arrival(arr, u) < Arrival(arr, t)
    ensures InOrder(threads, arr, Enqueue(threads, list, t))
  {
    InsertInOrder(threads, arr, list, Position(threads, list, Prio(threads, t)), t);
  }

  lemma RemoveInOrder(threads: Threads, arr: Arrivals, list: seq<nat>, t: nat)
    requires InOrder(threads, arr, list) && Distinct(list)
    ensures InOrder(threads, arr, Without(list, t))
  {
    hide Before, Without;
    if t in list {
      var i :| 0 <= i < |list| && list[i] == t;
      WithoutAt(list, i);
      var r := Without(list, t);
      forall j, k | 0 <= j < k < |r| ensures Before(threads, arr, r[j], r[k]) {
        assert r[j] == list[if j < i then j else j + 1] && r[k] == list[if k < i then k else k + 1];
      }
    } else {
      WithoutAbsent(list, t);
    }
  }

  /** The threads of `list` keep their status and priority over a step. */
  ghost predicate Unmoved(before: Table, after: Table, list: seq<nat>) {
    forall u :: u in list ==>
      && u in before.threads && u in after.threads
      && before.threads[u].status == after.threads[u].status
      && before.threads[u].priority == after.threads[u].priority
  }

  lemma KeptList(before: Table, after: Table, arr: Arrivals, now: nat, list: seq<nat>)
    requires InOrder(before.threads, arr, list) && Unmoved(before, after, list)
    ensures InOrder(after.threads, Stamped(arr, before, after, now), list)
  {
    KeepInOrder(before.threads, after.threads, arr, Stamped(arr, before, after, now), list);
  }

  lemma JoinedList(before: Table, after: Table, arr: Arrivals, now: nat, list: seq<nat>, t: nat)
    requires InOrder(before.threads, arr, list) && Unmoved(before, after, list)
    requires forall u :: u in list ==> Arrival(arr, u) < now
    requires t !in list && t in after.threads
    requires t in before.threads ==> before.threads[t].status != after.threads[t].status
    ensures InOrder(after.threads, Stamped(arr, before, after, now), Enqueue(after.threads, list, t))
  {
    var arr' := Stamped(arr, before, after, now);
    KeptList(before, after, arr, now, list);
    EnqueueInOrder(after.threads, arr', list, t);
  }

  lemma TailInOrder(threads: Threads, arr: Arrivals, list: seq<nat>)
    requires InOrder(threads, arr, list) && list != []
    ensures InOrder(threads, arr, list[1..])
  {}

  /** Handing over moves no thread but the two that change places. */
  lemma RelieveUnmoved(tb: Table, dst: Status)
    requires Inv(tb) && Possible(tb, Relieve(dst))
    ensures var (r, t, rest) := (Relieved(tb, dst), tb.work.value, tb.ready[1..]);
      && Unmoved(tb, r, rest) && Unmoved(tb, r, tb.suspended)
      && t !in rest && t !in tb.suspended && t in tb.threads && t in r.threads
      && tb.threads[t].status != r.threads[t].status
  {
    hide Enqueue, Queue, Settled;
    var t, head, rest := tb.work.value, tb.ready[0], tb.ready[1..];
    HeadNotInRest(tb);
    assert tb.ready == [head] + rest;
    assert Placed(tb, t) && Placed(tb, head);
    forall u | u in rest ensures u != t && u != head && Placed(tb, u) {
      assert u in tb.ready;
    }
    forall u | u in tb.suspended ensures u != t && u != head && Placed(tb, u) {}
  }

  lemma HeadNotInRest(tb: Table)
    requires Inv(tb) && tb.ready != []
    ensures tb.ready[0] !in tb.ready[1..]
  {
    TailMembers(tb.ready);
  }

  lemma RelieveFifo(tb: Table, dst: Status, arr: Arrivals, now: nat)
    requires Inv(tb) && Fifo(tb, arr, now) && Possible(tb, Relieve(dst))
    ensures var r := Relieved(tb, dst); var arr' := Stamped(arr, tb, r, now);
      InOrder(r.threads, arr', r.ready) && InOrder(r.threads, arr', r.suspended)
  {
    hide InOrder, Stamped, Enqueue, Unmoved;
    var t, rest := tb.work.value, tb.ready[1..];
    var r := Relieved(tb, dst);
    RelieveUnmoved(tb, dst);
    TailInOrder(tb.threads, arr, tb.ready);
    OldStamps(tb, arr, now);
    if dst == Ready {
      JoinedList(tb, r, arr, now, rest, t);
      EnqueueCongruent(tb.threads, r.threads, rest, t);
      KeptList(tb, r, arr, now, tb.suspended);
    } else {
      KeptList(tb, r, arr, now, rest);
      JoinedList(tb, r, arr, now, tb.suspended, t);
      EnqueueCongruent(tb.threads, r.threads, tb.suspended, t);
    }
  }

  lemma OldStamps(tb: Table, arr: Arrivals, now: nat)
    requires Inv(tb) && Fifo(tb, arr, now)
    ensures forall u :: u in tb.ready || u in tb.suspended ==> Arrival(arr, u) < now
  {}

  lemma MoveFifo(tb: Table, t: nat, dst: Status, arr: Arrivals, now: nat)
    requires Inv(tb) && Fifo(tb, arr, now) && Movable(tb, t, dst)
    ensures var r := Moved(tb, t, dst); var arr' := Stamped(arr, tb, r, now);
      InOrder(r.threads, arr', r.ready) && InOrder(r.threads, arr', r.suspended)
  {
    var r := Moved(tb, t, dst);
    var src, tgt := if dst == Ready then tb.suspended else tb.ready, if dst == Ready then tb.ready else tb.suspended;
    assert Placed(tb, t);
    WithoutMembers(src, t);
    RemoveInOrder(tb.threads, arr, src, t);
    forall u | u in Without(src, t) || u in tgt ensures u != t && Placed(tb, u) {}
    KeptList(tb, r, arr, now, Without(src, t));
    JoinedList(tb, r, arr, now, tgt, t);
    EnqueueCongruent(tb.threads, r.threads, tgt, t);
  }

  lemma LaunchFifo(tb: Table, arr: Arrivals, now: nat)
    requires Inv(tb) && Fifo(tb, arr, now) && Possible(tb, Launch)
    ensures var r := Launched(tb); var arr' := Stamped(arr, tb, r, now);
      InOrder(r.threads, arr', r.ready) && InOrder(r.threads, arr', r.suspended)
  {
    assert tb.ready == [tb.ready[0]] + tb.ready[1..];
    TailInOrder(tb.threads, arr, tb.ready);
    forall u | u in tb.ready[1..] ensures u != tb.ready[0] && u in tb.threads {
      assert u in tb.ready;
    }
    KeptList(tb, Launched(tb), arr, now, tb.ready[1..]);
  }

  lemma AdmitFifo(tb: Table, t: nat, p: nat, arr: Arrivals, now: nat)
    requires Inv(tb) && Fifo(tb, arr, now) && t !in tb.threads
    ensures var r := Admitted(tb, t, p); var arr' := Stamped(arr, tb, r, now);
      InOrder(r.threads, arr', r.ready) && InOrder(r.threads, arr', r.suspended)
  {
    var r := Admitted(tb, t, p);
    JoinedList(tb, r, arr, now, tb.ready, t);
    PositionCongruent(tb.threads, r.threads, tb.ready, p);
    KeptList(tb, r, arr, now, tb.suspended);
  }

  lemma {:induction false} StepFifo(tb: Table, op: Op, arr: Arrivals, now: nat)
    requires Inv(tb) && Enabled(tb, op) && Fifo(tb, arr, now)
    ensures Fifo(Step(tb, op), Stamped(arr, tb, Step(tb, op), now), now + 1)
  {
    StepIsChange(tb, op);
    var r := Step(tb, op);
    match ChangeOf(tb, op)
    case Launch => LaunchFifo(tb, arr, now);
    case Relieve(dst) => RelieveFifo(tb, dst, arr, now);
    case Move(t, dst) => MoveFifo(tb, t, dst, arr, now);
    case Admit(t, p) => AdmitFifo(tb, t, p, arr, now);
    case _ =>
      KeptList(tb, r, arr, now, tb.ready);
      KeptList(tb, r, arr, now, tb.suspended);
  }

  /** The arrival stamps after a run. */
  ghost function History(tb: Table, ops: seq<Op>, arr: Arrivals, now: nat): Arrivals
    requires Inv(tb) && Legal(tb, ops)
    decreases |ops|
  {
    if ops == [] then arr
    else
      StepInv(tb, ops[0]);
      History(Step(tb, ops[0]), ops[1..], Stamped(arr, tb, Step(tb, ops[0]), now), now + 1)
  }

  /** After every run each list is in strict order of priority and, among
      equals, of the step at which the thread joined it: the head is the thread
      of the best priority that has waited longest. */
  lemma {:induction false} RunFifo(tb: Table, ops: seq<Op>, arr: Arrivals, now: nat)
    requires Inv(tb) && Legal(tb, ops) && Fifo(tb, arr, now)
    ensures var r := Run(tb, ops); Fifo(r, History(tb, ops, arr, now), now + |ops|)
    decreases |ops|
  {
    hide Step, Fifo, Places, Queues, Stamped, Enabled;
    if ops != [] {
      var tb' := Step(tb, ops[0]);
      StepInv(tb, ops[0]);
      StepFifo(tb, ops[0], arr, now);
      RunFifo(tb', ops[1..], Stamped(arr, tb, tb', now), now + 1);
    }
  }

  // --------------------------------------------------------------- rotation

  ghost function Yields(tb: Table, n: nat): (r: Table)
    requires Inv(tb)
    ensures Inv(r)
    decreases n
  {
    if n == 0 then tb else (StepInv(tb, Op.Yield); Yields(Step(tb, Op.Yield), n - 1))
  }

  function Rotated(ring: seq<nat>, n: nat): (r: seq<nat>)
    requires ring != []
    ensures |r| == |ring|
    decreases n
  {
    if n == 0 then ring else Rotated(ring[1..] + [ring[0]], n - 1)
  }

  lemma {:induction false} RotatedAll(a: seq<nat>, b: seq<nat>)
    requires a + b != []
    ensures Rotated(a + b, |a|) == b + a
  {
    if a == [] {
      assert a + b == b + a;
    } else {
      assert (a + b)[1..] + [(a + b)[0]] == a[1..] + (b + [a[0]]);
      RotatedAll(a[1..], b + [a[0]]);
      assert b + [a[0]] + a[1..] == b + a;
    }
  }

  ghost predicate Equals(threads: Threads, list: seq<nat>, p: nat) {
    forall u :: u in list ==> Prio(threads, u) == p
  }

  ghost predicate Below(threads: Threads, list: seq<nat>, p: nat) {
    forall u :: u in list ==> p < Prio(threads, u)
  }

  /** `ring` is the running thread followed by the ready threads of the same
      priority `p`; everything else that is ready has a lower one. */
  ghost predicate Ring(tb: Table, ring: seq<nat>, rest: seq<nat>, p: nat) {
    && |ring| >= 2
    && tb.work == Some(ring[0]) && tb.ready == ring[1..] + rest
    && Equals(tb.threads, ring, p) && Below(tb.threads, rest, p)
  }

  /** The parts of the table that a yield within a ring does not touch. */
  ghost predicate SameBut(a: Table, b: Table) {
    && a.threads.Keys == b.threads.Keys
    && (forall t :: Prio(a.threads, t) == Prio(b.threads, t))
    && a.suspended == b.suspended && a.started == b.started
  }

  ghost predicate NoRequests(tb: Table) {
    forall t :: t in tb.threads ==> tb.threads[t].target == Unset
  }

  /** The thread that yields queues behind its equals. */
  lemma QueuesBehindEquals(threads: Threads, equals: seq<nat>, rest: seq<nat>, t: nat)
    requires Equals(threads, equals, Prio(threads, t)) && Below(threads, rest, Prio(threads, t))
    requires t !in equals + rest
    ensures Enqueue(threads, equals + rest, t) == equals + [t] + rest
  {
    var list := equals + rest;
    assert equals != [] ==> equals[|equals| - 1] in equals;
    assert forall i :: |equals| <= i < |list| ==> list[i] in rest;
    PositionUnique(threads, list, Prio(threads, t), |equals|);
    assert list[..|equals|] == equals && list[|equals|..] == rest;
  }

  lemma YieldRelieves(tb: Table)
    requires Places(tb) && tb.work.Some? && tb.ready != [] && NoRequests(tb)
    ensures Step(tb, Op.Yield) == Relieved(tb, Ready)
    ensures SameBut(tb, Relieved(tb, Ready)) && NoRequests(Relieved(tb, Ready))
    ensures tb.work.value !in tb.ready
  {
    ScheduleChange(tb);
    assert Placed(tb, tb.work.value);
  }

  lemma RelievedRotates(tb: Table, ring: seq<nat>, rest: seq<nat>, p: nat)
    requires Handles(tb) && Ring(tb, ring, rest, p) && ring[0] !in tb.ready
    ensures Ring(Relieved(tb, Ready), ring[1..] + [ring[0]], rest, p)
  {
    var t := ring[0];
    assert t in ring && Prio(tb.threads, t) == p;
    assert tb.ready[0] == ring[1] && tb.ready[1..] == ring[2..] + rest;
    assert tb.ready == [tb.ready[0]] + tb.ready[1..];
    QueuesBehindEquals(tb.threads, ring[2..], rest, t);
    assert (ring[1..] + [t])[1..] == ring[2..] + [t];
  }

  /** A state reached from `base` by yields within its ring. */
  ghost predicate Turning(base: Table, tb: Table, ring: seq<nat>, rest: seq<nat>, p: nat) {
    Inv(tb) && SameBut(base, tb) && NoRequests(tb) && Ring(tb, ring, rest, p)
  }

  lemma YieldTurns(base: Table, tb: Table, ring: seq<nat>, rest: seq<nat>, p: nat)
    requires Turning(base, tb, ring, rest, p)
    ensures Turning(base, Step(tb, Op.Yield), ring[1..] + [ring[0]], rest, p)
  {
    YieldRelieves(tb);
    RelievedRotates(tb, ring, rest, p);
    RelievedInv(tb, Ready);
  }

  lemma {:induction false} YieldsTurn(base: Table, tb: Table, ring: seq<nat>, rest: seq<nat>, p: nat, n: nat)
    requires Turning(base, tb, ring, rest, p)
    ensures Turning(base, Yields(tb, n), Rotated(ring, n), rest, p)
    decreases n
  {
    hide Step, Places, Queues;
    if n > 0 {
      YieldTurns(base, tb, ring, rest, p);
      YieldsTurn(base, Step(tb, Op.Yield), ring[1..] + [ring[0]], rest, p, n - 1);
    }
  }

  /** With no request pending, the lists and the slot determine the table. */
  lemma ListsDetermine(a: Table, b: Table)
    requires Inv(a) && Inv(b) && NoRequests(a) && NoRequests(b) && SameBut(a, b)
    requires a.work == b.work && a.ready == b.ready
    ensures a == b
  {
    forall t | t in a.threads ensures a.threads[t] == b.threads[t] {
      assert Placed(a, t) && Placed(b, t);
      assert Prio(a.threads, t) == Prio(b.threads, t);
    }
    assert a.threads == b.threads;
  }

  /** A schedule makes no request, and one that hands over clears all. */
  lemma ScheduleSettles(tb: Table)
    requires Inv(tb) && Possible(tb, ChangeOfSchedule(tb))
    requires NoRequests(tb) || (tb.work.Some? && tb.ready != [])
    ensures NoRequests(Apply(tb, ChangeOfSchedule(tb)))
  {
    hide Enqueue, Without;
    RequestsAreRunners(tb);
    assert Handles(tb);
    hide Inv;
  }

  lemma RequestsAreRunners(tb: Table)
    requires Inv(tb)
    ensures Handles(tb) && (tb.ready != [] ==> tb.work != Some(tb.ready[0]))
    ensures forall t :: t in tb.threads && tb.work != Some(t) ==> tb.threads[t].target == Unset
  {
    forall t | t in tb.threads ensures Settled(tb, t) && Placed(tb, t) {}
  }

  lemma YieldSettles(tb: Table)
    requires Inv(tb) && (NoRequests(tb) || (tb.work.Some? && tb.ready != []))
    ensures NoRequests(Step(tb, Op.Yield)) && Step(tb, Op.Yield).threads.Keys == tb.threads.Keys
  {
    hide Apply, Possible, NoRequests, Step, ChangeOfSchedule;
    StepKeys(tb, Op.Yield);
    StepIsChange(tb, Op.Yield);
    ScheduleSettles(tb);
  }

  lemma {:induction false} YieldsAskNothing(tb: Table, n: nat)
    requires Inv(tb) && NoRequests(tb)
    ensures NoRequests(Yields(tb, n)) && Yields(tb, n).threads.Keys == tb.threads.Keys
    decreases n
  {
    hide Step, NoRequests;
    if n > 0 {
      StepInv(tb, Op.Yield);
      YieldSettles(tb);
      YieldsAskNothing(Step(tb, Op.Yield), n - 1);
    }
  }

  /** When the running thread and k - 1 >= 1 ready threads share the best
      priority, and the running one has no request pending, k yields give each
      of them one turn and restore the table. */
  lemma RoundTurns(tb: Table, ring: seq<nat>, rest: seq<nat>, p: nat)
    requires Inv(tb) && Ring(tb, ring, rest, p) && NoRequests(tb)
    ensures Yields(tb, |ring|) == tb
    ensures forall n :: 0 <= n < |ring| ==> Yields(tb, n).work == Some(ring[n])
  {
    hide Step, Places, Queues, Ring;
    RingParts(tb, ring, rest, p);
    YieldsTurn(tb, tb, ring, rest, p, |ring|);
    RotatedAll(ring, []);
    assert ring + [] == ring && [] + ring == ring;
    RingParts(Yields(tb, |ring|), ring, rest, p);
    ListsDetermine(tb, Yields(tb, |ring|));
    forall n | 0 <= n < |ring| ensures Yields(tb, n).work == Some(ring[n]) {
      YieldsTurn(tb, tb, ring, rest, p, n);
      assert ring == ring[..n] + ring[n..];
      RotatedAll(ring[..n], ring[n..]);
      RingParts(Yields(tb, n), ring[n..] + ring[..n], rest, p);
    }
  }

  lemma RingParts(tb: Table, ring: seq<nat>, rest: seq<nat>, p: nat)
    requires Ring(tb, ring, rest, p)
    ensures ring != [] && tb.work == Some(ring[0]) && tb.ready == ring[1..] + rest && tb.ready != []
  {}

  /** k yields of k >= 2 threads that share the best priority restore the whole
      table if and only if the running thread has no request pending; each of
      them then gets one turn. */
  lemma {:induction false} RoundRobin(tb: Table, ring: seq<nat>, rest: seq<nat>, p: nat)
    requires Inv(tb) && Ring(tb, ring, rest, p)
    ensures ring[0] in tb.threads
    ensures Yields(tb, |ring|) == tb <==> tb.threads[ring[0]].target == Unset
    ensures tb.threads[ring[0]].target == Unset ==> forall n :: 0 <= n < |ring| ==> Yields(tb, n).work == Some(ring[n])
  {
    hide Yields, Step, NoRequests, Places, Queues;
    OnlyRunnerAsks(tb);
    RingParts(tb, ring, rest, p);
    if tb.threads[ring[0]].target == Unset {
      RoundTurns(tb, ring, rest, p);
    } else {
      YieldSettles(tb);
      StepInv(tb, Op.Yield);
      YieldsAskNothing(Step(tb, Op.Yield), |ring| - 1);
      YieldsHead(tb, |ring|);
      NoneAsks(Yields(tb, |ring|), ring[0]);
    }
  }

  lemma OnlyRunnerAsks(tb: Table)
    requires Inv(tb) && tb.work.Some?
    ensures tb.work.value in tb.threads
    ensures NoRequests(tb) <==> tb.threads[tb.work.value].target == Unset
  {
    forall t | t in tb.threads ensures Settled(tb, t) {}
  }

  lemma NoneAsks(tb: Table, t: nat)
    requires NoRequests(tb) && t in tb.threads
    ensures tb.threads[t].target == Unset
  {}

  lemma YieldsHead(tb: Table, n: nat)
    requires Inv(tb) && n > 0
    ensures Inv(Step(tb, Op.Yield)) && Yields(tb, n) == Yields(Step(tb, Op.Yield), n - 1)
  {
    hide Inv, Step;
    StepInv(tb, Op.Yield);
  }

  const ALONE: Table := Table(map[1 := Thread(Ready, Unset, 5)], [1], [], None, false)
  const RUNS: Table := Table(map[1 := Thread(Running, Unset, 5)], [], [], Some(1), true)
  const ASKS: Table := Table(map[1 := Thread(Running, Suspend, 5)], [], [], Some(1), true)
  const JOINED: Table :=
    Table(map[1 := Thread(Running, Suspend, 5), 2 := Thread(Ready, Unset, 5)], [2], [], Some(1), true)

  lemma FirstSteps()
    ensures Registered(EMPTY, 1, 5, true).0 == ALONE
    ensures Places(ALONE) && Scheduled(ALONE).0 == RUNS
  {
    assert Registered(EMPTY, 1, 5, true).0.threads == ALONE.threads;
    assert Sync(Request(ALONE, 1, Running), 1, Running).threads == RUNS.threads;
  }

  lemma LaterSteps()
    ensures Places(RUNS) && SelfSuspended(RUNS).0 == ASKS
    ensures Registered(ASKS, 2, 5, true).0 == JOINED
  {
    assert Request(RUNS, 1, Suspend).threads == ASKS.threads;
    assert Registered(ASKS, 2, 5, true).0.threads == JOINED.threads;
  }

  lemma LastStep()
    requires Inv(JOINED)
    ensures var r := Scheduled(JOINED).0; 1 in r.threads && r.threads[1].status == Suspend && 1 in r.suspended
  {
    ScheduleChange(JOINED);
    assert ChangeOfSchedule(JOINED) == Relieve(Suspend);
  }

  /** The states of the run below. */
  lemma PendingRun()
    ensures Inv(EMPTY) && Inv(ALONE) && Inv(RUNS) && Inv(ASKS) && Inv(JOINED)
    ensures Registered(EMPTY, 1, 5, true).0 == ALONE && Scheduled(ALONE).0 == RUNS
    ensures SelfSuspended(RUNS).0 == ASKS && Registered(ASKS, 2, 5, true).0 == JOINED
    ensures var r := Scheduled(JOINED).0; 1 in r.threads && r.threads[1].status == Suspend && 1 in r.suspended
  {
    hide Inv, Registered, Scheduled, SelfSuspended, Enabled;
    EmptyInv();
    FirstSteps();
    LaterSteps();
    MayStep();
    StepInv(EMPTY, Register(1, 5, true));
    StepInv(ALONE, Op.Yield);
    StepInv(RUNS, Op.SelfSuspend);
    StepInv(ASKS, Register(2, 5, true));
    LastStep();
  }

  lemma StopsAt(tb: Table)
    requires Inv(tb)
    ensures Legal(tb, []) && Run(tb, []) == tb
  {}

  lemma {:induction false} Cons(tb: Table, op: Op, next: Table, rest: seq<Op>, end: Table)
    requires Inv(tb) && Enabled(tb, op) && Step(tb, op) == next
    requires Inv(next) && Legal(next, rest) && Run(next, rest) == end
    ensures Legal(tb, [op] + rest) && Run(tb, [op] + rest) == end
  {
    hide Inv, Step, Enabled;
    assert ([op] + rest)[1..] == rest;
  }

  lemma MayStep()
    ensures Enabled(EMPTY, Register(1, 5, true)) && Enabled(ALONE, Op.Yield) && Enabled(RUNS, Op.SelfSuspend)
    ensures Enabled(ASKS, Register(2, 5, true)) && Enabled(JOINED, Op.Yield)
  {}

  /** Without idle a request may stay pending: thread 1 suspends itself while
      nobody is ready, and when thread 2 of the same priority comes, a yield
      suspends thread 1 instead of taking turns. */
  lemma PendingBreaksTheRound()
    ensures var ops := [Register(1, 5, true), Op.Yield, Op.SelfSuspend, Register(2, 5, true)];
      && FromBoot(ops) && Booted(ops) == JOINED && Ring(JOINED, [1, 2], [], 5)
      && 1 in Yields(JOINED, 1).suspended
  {
    hide Inv, Registered, Scheduled, SelfSuspended, Enabled;
    var ops := [Register(1, 5, true), Op.Yield, Op.SelfSuspend, Register(2, 5, true)];
    PendingRun();
    MayStep();
    hide Legal, Run;
    Cons(ASKS, ops[3], JOINED, [], JOINED) by { StopsAt(JOINED); }
    Cons(RUNS, ops[2], ASKS, [ops[3]], JOINED) by { assert [ops[3]] + [] == [ops[3]]; }
    Cons(ALONE, ops[1], RUNS, [ops[2], ops[3]], JOINED) by { assert [ops[2]] + [ops[3]] == [ops[2], ops[3]]; }
    Cons(EMPTY, ops[0], ALONE, ops[1..], JOINED) by { assert [ops[1]] + [ops[2], ops[3]] == ops[1..]; }
    assert [ops[0]] + ops[1..] == ops;
    YieldsHead(JOINED, 1);
  }
}
