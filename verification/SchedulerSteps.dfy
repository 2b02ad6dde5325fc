/**
 * Each scheduler operation, on a table that satisfies the invariant, is one of
 * seven simple changes to the table, and each change keeps the invariant.
 */
module SchedulerSteps {
  import opened Common
  import opened Scheduler

  /** The calls the rest of the kernel makes on the scheduler. */
  datatype Op =
    | Register(tid: nat, priority: nat, hasStack: bool)
    | Yield
    | SelfSuspend
    | SuspendThread(tid: nat)
    | Wakeup(tid: nat)

  /** A caller names only threads that exist, and only a running thread can
      suspend itself or another. */
  ghost predicate Enabled(tb: Table, op: Op) {
    match op
    case Register(t, _, _) => t < MAX_THREADS
    case Yield => true
    case SelfSuspend => tb.work.Some?
    case SuspendThread(t) => tb.work.Some? && t in tb.threads
    case Wakeup(t) => t in tb.threads
  }

  ghost function Step(tb: Table, op: Op): Table
    requires Places(tb) && Enabled(tb, op)
  {
    match op
    case Register(t, p, hasStack) => Registered(tb, t, p, hasStack).0
    case Yield => Scheduled(tb).0
    case SelfSuspend => SelfSuspended(tb).0
    case SuspendThread(t) => SuspendedThread(tb, t).0
    case Wakeup(t) => Woken(tb, t).0
  }

  // ------------------------------------------------------- list discipline

  lemma InsertDistinct(list: seq<nat>, k: nat, t: nat)
    requires k <= |list| && t !in list && Distinct(list)
    ensures Distinct(list[..k] + [t] + list[k..])
  {
    var r := list[..k] + [t] + list[k..];
    forall i, j | 0 <= i < j < |r| ensures r[i] != r[j] {
      var i', j' := if i > k then i - 1 else i, if j > k then j - 1 else j;
      assert i != k ==> r[i] == list[i'];
      assert j != k ==> r[j] == list[j'];
    }
  }

  lemma InsertSorted(threads: Threads, list: seq<nat>, k: nat, t: nat)
    requires Sorted(threads, list) && k <= |list|
    requires k > 0 ==> Prio(threads, list[k - 1]) <= Prio(threads, t)
    requires forall i :: k <= i < |list| ==> Prio(threads, t) < Prio(threads, list[i])
    ensures Sorted(threads, list[..k] + [t] + list[k..])
  {
    var r := list[..k] + [t] + list[k..];
    forall i, j | 0 <= i < j < |r| ensures Prio(threads, r[i]) <= Prio(threads, r[j]) {
      if i < k {
        assert Prio(threads, list[i]) <= Prio(threads, t);
      }
    }
  }

  /** A thread that is already listed stays where it is. */
  lemma EnqueueListed(threads: Threads, list: seq<nat>, t: nat)
    requires t in list
    ensures Enqueue(threads, list, t) == list
  {}

  lemma EnqueueMembers(threads: Threads, list: seq<nat>, t: nat)
    ensures forall u :: u in Enqueue(threads, list, t) <==> u in list || u == t
  {
    var k := Position(threads, list, Prio(threads, t));
    assert list == list[..k] + list[k..];
  }

  lemma EnqueueKeepsOrder(threads: Threads, list: seq<nat>, t: nat)
    requires t !in list && Distinct(list) && Sorted(threads, list)
    ensures Distinct(Enqueue(threads, list, t)) && Sorted(threads, Enqueue(threads, list, t))
  {
    var k := Position(threads, list, Prio(threads, t));
    InsertDistinct(list, k, t);
    InsertSorted(threads, list, k, t);
  }

  lemma RemoveKeepsOrder(threads: Threads, list: seq<nat>, t: nat)
    requires Distinct(list) && Sorted(threads, list)
    ensures Distinct(Without(list, t)) && Sorted(threads, Without(list, t))
  {
    hide Without, Prio;
    WithoutMembers(list, t);
    if t in list {
      var i :| 0 <= i < |list| && list[i] == t;
      WithoutAt(list, i);
      CutSorted(threads, list, i);
    } else {
      WithoutAbsent(list, t);
    }
  }

  lemma CutSorted(threads: Threads, list: seq<nat>, i: nat)
    requires Sorted(threads, list) && i < |list|
    ensures Sorted(threads, list[..i] + list[i + 1..])
  {
    hide Prio;
    var r := list[..i] + list[i + 1..];
    forall j, k | 0 <= j < k < |r| ensures Prio(threads, r[j]) <= Prio(threads, r[k]) {
      assert r[j] == list[if j < i then j else j + 1] && r[k] == list[if k < i then k else k + 1];
    }
  }

  /** Order and position depend on the priorities alone. */
  lemma {:induction false} PositionCongruent(a: Threads, b: Threads, list: seq<nat>, p: nat)
    requires forall t :: t in list ==> Prio(a, t) == Prio(b, t)
    ensures Position(a, list, p) == Position(b, list, p)
  {
    if list != [] {
      assert list[|list| - 1] in list;
      PositionCongruent(a, b, list[..|list| - 1], p);
    }
  }

  lemma EnqueueCongruent(a: Threads, b: Threads, list: seq<nat>, t: nat)
    requires forall u :: Prio(a, u) == Prio(b, u)
    ensures Enqueue(a, list, t) == Enqueue(b, list, t)
  {
    PositionCongruent(a, b, list, Prio(a, t));
  }

  lemma SortedCongruent(a: Threads, b: Threads, list: seq<nat>)
    requires Sorted(a, list)
    requires forall u :: Prio(a, u) == Prio(b, u)
    ensures Sorted(b, list)
  {}

  // ---------------------------------------------------- the edges of a run

  function Put(threads: Threads, t: nat, status: Status): (r: Threads)
    requires t in threads
    ensures forall u :: Prio(r, u) == Prio(threads, u)
    ensures r.Keys == threads.Keys
  {
    threads[t := Thread(status, Unset, threads[t].priority)]
  }

  /** Hands the running slot to the head of the ready list and puts the
      thread that held it on the ready or the suspend list. */
  ghost function Relieved(tb: Table, dst: Status): Table
    requires Handles(tb) && tb.work.Some? && tb.ready != []
  {
    var t, head := tb.work.value, tb.ready[0];
    tb.(threads := Put(Put(tb.threads, head, Running), t, dst),
        ready := if dst == Ready then Enqueue(tb.threads, tb.ready[1..], t) else tb.ready[1..],
        suspended := if dst == Suspend then Enqueue(tb.threads, tb.suspended, t) else tb.suspended,
        work := Some(head))
  }

  lemma SwitchRelieves(tb: Table, dst: Status)
    requires Handles(tb) && tb.work.Some? && tb.ready != []
    requires tb.threads[tb.work.value].status == Running && tb.threads[tb.ready[0]].status == Ready
    requires dst == Ready || (dst == Suspend && tb.work.value != TID_IDLE)
    ensures Switch(Request(tb, tb.work.value, dst), tb.work.value) == (Relieved(tb, dst), Normal)
  {
    hide Enqueue, Without;
    var t := tb.work.value;
    var req := Request(tb, t, dst);
    var left := HandOver(req);
    var list := if dst == Ready then tb.ready[1..] else tb.suspended;
    assert Enqueue(left.threads, list, t) == Enqueue(tb.threads, list, t) by {
      EnqueueCongruent(left.threads, tb.threads, list, t);
    }
    assert Sync(left, t, dst).threads == Relieved(tb, dst).threads;
  }

  lemma RelievedPlaces(tb: Table, dst: Status)
    requires Places(tb) && tb.work.Some? && tb.ready != [] && tb.ready[0] !in tb.ready[1..]
    requires dst == Ready || (dst == Suspend && tb.work.value != TID_IDLE)
    ensures Places(Relieved(tb, dst))
  {
    var r := Relieved(tb, dst);
    assert Placed(tb, tb.work.value) && Placed(tb, tb.ready[0]);
    assert tb.ready == [tb.ready[0]] + tb.ready[1..];
    EnqueueMembers(tb.threads, if dst == Ready then tb.ready[1..] else tb.suspended, tb.work.value);
    forall u | u in r.threads ensures Placed(r, u) && Settled(r, u) && u < MAX_THREADS {
      assert Placed(tb, u) && Settled(tb, u);
    }
  }

  lemma RelievedQueues(tb: Table, dst: Status)
    requires Handles(tb) && tb.work.Some? && tb.ready != [] && Queues(tb)
    requires tb.work.value !in tb.ready && tb.work.value !in tb.suspended
    ensures Queues(Relieved(tb, dst))
  {
    var t := tb.work.value;
    var r := Relieved(tb, dst);
    EnqueueKeepsOrder(tb.threads, tb.ready[1..], t);
    EnqueueKeepsOrder(tb.threads, tb.suspended, t);
    SortedCongruent(tb.threads, r.threads, r.ready);
    SortedCongruent(tb.threads, r.threads, r.suspended);
  }

  /** Moves a thread between the ready and the suspend list. */
  ghost function Moved(tb: Table, t: nat, dst: Status): Table
    requires t in tb.threads
  {
    if dst == Ready then
      tb.(threads := Put(tb.threads, t, dst),
          suspended := Without(tb.suspended, t), ready := Enqueue(tb.threads, tb.ready, t))
    else
      tb.(threads := Put(tb.threads, t, dst),
          ready := Without(tb.ready, t), suspended := Enqueue(tb.threads, tb.suspended, t))
  }

  ghost predicate Movable(tb: Table, t: nat, dst: Status) {
    && t in tb.threads && tb.work.Some?
    && ((dst == Ready && tb.threads[t].status == Suspend)
        || (dst == Suspend && tb.threads[t].status == Ready && t != TID_IDLE))
  }

  lemma SwitchMoves(tb: Table, t: nat, dst: Status)
    requires Handles(tb) && Movable(tb, t, dst)
    ensures Switch(Request(tb, t, dst), t) == (Moved(tb, t, dst), Normal)
  {
    var req := Request(tb, t, dst);
    var list := if dst == Ready then tb.ready else tb.suspended;
    assert Enqueue(req.threads, list, t) == Enqueue(tb.threads, list, t) by {
      EnqueueCongruent(req.threads, tb.threads, list, t);
    }
    assert Sync(req, t, dst).threads == Moved(tb, t, dst).threads;
  }

  lemma MovedPlaces(tb: Table, t: nat, dst: Status)
    requires Places(tb) && Movable(tb, t, dst) && Distinct(tb.ready) && Distinct(tb.suspended)
    ensures Places(Moved(tb, t, dst))
  {
    var r := Moved(tb, t, dst);
    assert Placed(tb, t);
    EnqueueMembers(tb.threads, if dst == Ready then tb.ready else tb.suspended, t);
    WithoutMembers(if dst == Ready then tb.suspended else tb.ready, t);
    forall u | u in r.threads ensures Placed(r, u) && Settled(r, u) && u < MAX_THREADS {
      assert Placed(tb, u) && Settled(tb, u);
    }
  }

  lemma MovedQueues(tb: Table, t: nat, dst: Status)
    requires Queues(tb) && t in tb.threads
    requires dst == Ready ==> t !in tb.ready
    requires dst != Ready ==> t !in tb.suspended
    ensures Queues(Moved(tb, t, dst))
  {
    var r := Moved(tb, t, dst);
    EnqueueKeepsOrder(tb.threads, if dst == Ready then tb.ready else tb.suspended, t);
    RemoveKeepsOrder(tb.threads, if dst == Ready then tb.suspended else tb.ready, t);
    SortedCongruent(tb.threads, r.threads, r.ready);
    SortedCongruent(tb.threads, r.threads, r.suspended);
  }

  /** The first schedule runs the head of the ready list. */
  ghost function Launched(tb: Table): Table
    requires Handles(tb) && tb.ready != []
  {
    tb.(threads := Put(tb.threads, tb.ready[0], Running),
        ready := tb.ready[1..], work := Some(tb.ready[0]), started := true)
  }

  lemma ScheduleLaunches(tb: Table)
    requires Places(tb) && tb.work.None? && tb.ready != []
    ensures Scheduled(tb) == (Launched(tb), true)
  {
    assert Placed(tb, tb.ready[0]);
    assert Scheduled(tb).0.threads == Launched(tb).threads;
  }

  lemma LaunchedInv(tb: Table)
    requires Inv(tb) && tb.work.None? && tb.ready != []
    ensures Inv(Launched(tb))
  {
    hide Queue;
    var r := Launched(tb);
    LaunchedQueues(tb);
    assert Placed(tb, tb.ready[0]);
    assert tb.ready == [tb.ready[0]] + tb.ready[1..];
    forall u | u in r.threads ensures Placed(r, u) && Settled(r, u) && u < MAX_THREADS {
      assert Placed(tb, u) && Settled(tb, u);
    }
  }

  lemma LaunchedQueues(tb: Table)
    requires Inv(tb) && tb.work.None? && tb.ready != []
    ensures Queues(Launched(tb)) && tb.ready[0] !in tb.ready[1..]
  {
    hide Settled;
    var r := Launched(tb);
    TailMembers(tb.ready);
    SortedCongruent(tb.threads, r.threads, r.ready);
    SortedCongruent(tb.threads, r.threads, r.suspended);
  }

  /** A new thread of the given priority joins the ready list. */
  ghost function Admitted(tb: Table, t: nat, p: nat): Table {
    var k := Position(tb.threads, tb.ready, p);
    tb.(threads := tb.threads[t := Thread(Ready, Unset, p)], ready := tb.ready[..k] + [t] + tb.ready[k..])
  }

  /** Registration admits a thread that is new and has a stack, and refuses any
      other without a change; the answer says which. */
  lemma RegistrationIs(tb: Table, t: nat, p: nat, hasStack: bool)
    requires Places(tb)
    ensures t !in tb.threads && hasStack ==> Registered(tb, t, p, hasStack) == (Admitted(tb, t, p), Normal)
    ensures t in tb.threads || !hasStack ==>
      Registered(tb, t, p, hasStack) == (tb, if t in tb.threads then Invalid else NoMem)
  {
    hide Placed, Settled, Position;
    if t !in tb.threads && hasStack {
      var threads := tb.threads[t := Thread(Unset, Unset, p)];
      PositionCongruent(threads, tb.threads, tb.ready, p);
      assert Registered(tb, t, p, hasStack).0.threads == Admitted(tb, t, p).threads;
    }
  }

  /** A refused switch drops the request and changes nothing else. */
  lemma RefusedInv(tb: Table, t: nat)
    requires Inv(tb) && t in tb.threads
    ensures Inv(Sync(tb, t, tb.threads[t].status))
  {
    var r := Sync(tb, t, tb.threads[t].status);
    SortedCongruent(tb.threads, r.threads, r.ready);
    SortedCongruent(tb.threads, r.threads, r.suspended);
    forall u | u in r.threads ensures Placed(r, u) && Settled(r, u) && u < MAX_THREADS {
      assert Placed(tb, u) && Settled(tb, u);
    }
  }

  lemma RelievedInv(tb: Table, dst: Status)
    requires Inv(tb) && tb.work.Some? && tb.ready != []
    requires dst == Ready || (dst == Suspend && tb.work.value != TID_IDLE)
    ensures Inv(Relieved(tb, dst))
  {
    assert Placed(tb, tb.work.value);
    RelievedPlaces(tb, dst);
    RelievedQueues(tb, dst);
  }

  lemma MovedInv(tb: Table, t: nat, dst: Status)
    requires Inv(tb) && Movable(tb, t, dst)
    ensures Inv(Moved(tb, t, dst))
  {
    assert Placed(tb, t);
    MovedPlaces(tb, t, dst);
    MovedQueues(tb, t, dst);
  }

  // ------------------------------------------------------- every operation

  lemma PendingInv(tb: Table)
    requires Inv(tb) && tb.work.Some?
    ensures Inv(Request(tb, tb.work.value, Suspend))
  {
    var r := Request(tb, tb.work.value, Suspend);
    PendingPlaces(tb);
    SortedCongruent(tb.threads, r.threads, r.ready);
    SortedCongruent(tb.threads, r.threads, r.suspended);
  }

  /** Every operation is one of seven changes to the table. */
  datatype Change =
    | Nothing
    | Pending
    | Refused(tid: nat)
    | Launch
    | Relieve(dst: Status)
    | Move(tid: nat, dst: Status)
    | Admit(tid: nat, priority: nat)

  ghost predicate Possible(tb: Table, c: Change) {
    match c
    case Nothing => true
    case Pending => tb.work.Some?
    case Refused(t) => t in tb.threads
    case Launch => tb.work.None? && tb.ready != []
    case Relieve(dst) =>
      && tb.work.Some? && tb.ready != []
      && (dst == Ready || (dst == Suspend && tb.work.value != TID_IDLE))
    case Move(t, dst) => Movable(tb, t, dst)
    case Admit(t, _) => t !in tb.threads && t < MAX_THREADS
  }

  ghost function Apply(tb: Table, c: Change): Table
    requires Handles(tb) && Possible(tb, c)
  {
    match c
    case Nothing => tb
    case Pending => Request(tb, tb.work.value, Suspend)
    case Refused(t) => Sync(tb, t, tb.threads[t].status)
    case Launch => Launched(tb)
    case Relieve(dst) => Relieved(tb, dst)
    case Move(t, dst) => Moved(tb, t, dst)
    case Admit(t, p) => Admitted(tb, t, p)
  }

  ghost function ChangeOfSchedule(tb: Table): Change {
    if tb.ready == [] then Nothing
    else if tb.work.None? then Launch
    else if tb.work.value in tb.threads && tb.threads[tb.work.value].target == Unset then Relieve(Ready)
    else if tb.work.value == TID_IDLE then Refused(TID_IDLE)
    else Relieve(Suspend)
  }

  ghost function ChangeOf(tb: Table, op: Op): Change
    requires Enabled(tb, op)
  {
    match op
    case Register(t, p, hasStack) => if t in tb.threads || !hasStack then Nothing else Admit(t, p)
    case Yield => ChangeOfSchedule(tb)
    case SelfSuspend => ChangeOfSelfSuspend(tb)
    case SuspendThread(t) =>
      if tb.work == Some(t) then ChangeOfSelfSuspend(tb)
      else if t == TID_IDLE || tb.threads[t].status != Ready then Refused(t)
      else Move(t, Suspend)
    case Wakeup(t) => if tb.threads[t].status == Suspend then Move(t, Ready) else Nothing
  }

  ghost function ChangeOfSelfSuspend(tb: Table): Change
    requires tb.work.Some?
  {
    if tb.ready == [] then Pending
    else if tb.work.value == TID_IDLE then Refused(TID_IDLE)
    else Relieve(Suspend)
  }

  lemma SelfSuspendIs(tb: Table)
    requires Places(tb) && tb.work.Some?
    ensures Possible(tb, ChangeOfSelfSuspend(tb))
    ensures SelfSuspended(tb).0 == Apply(tb, ChangeOfSelfSuspend(tb))
  {
    var t := tb.work.value;
    assert Placed(tb, t);
    if tb.ready != [] {
      assert Placed(tb, tb.ready[0]);
      if t == TID_IDLE {
        assert Sync(Request(tb, t, Suspend), t, Running).threads == Sync(tb, t, Running).threads;
      } else {
        SwitchRelieves(tb, Suspend);
      }
    }
  }

  lemma ScheduleChange(tb: Table)
    requires Places(tb)
    ensures Possible(tb, ChangeOfSchedule(tb)) && Scheduled(tb).0 == Apply(tb, ChangeOfSchedule(tb))
  {
    if tb.ready != [] {
      if tb.work.None? {
        ScheduleLaunches(tb);
      } else {
        var t := tb.work.value;
        assert Placed(tb, t) && Settled(tb, t) && Placed(tb, tb.ready[0]);
        if tb.threads[t].target == Unset {
          SwitchRelieves(tb, Ready);
        } else {
          assert Request(tb, t, Suspend).threads == tb.threads;
          if t != TID_IDLE {
            SwitchRelieves(tb, Suspend);
          }
        }
      }
    }
  }

  lemma {:induction false} StepIsChange(tb: Table, op: Op)
    requires Places(tb) && Enabled(tb, op)
    ensures Possible(tb, ChangeOf(tb, op)) && Step(tb, op) == Apply(tb, ChangeOf(tb, op))
  {
    match op
    case Register(t, p, hasStack) => RegistrationIs(tb, t, p, hasStack);
    case Yield => ScheduleChange(tb);
    case SelfSuspend => SelfSuspendIs(tb);
    case SuspendThread(t) =>
      if tb.work == Some(t) {
        SelfSuspendIs(tb);
      } else {
        assert Placed(tb, t) && Settled(tb, t);
        if t != TID_IDLE && tb.threads[t].status == Ready {
          SwitchMoves(tb, t, Suspend);
        } else {
          var req, src := Request(tb, t, Suspend), tb.threads[t].status;
          assert Sync(req, t, src).threads == Sync(tb, t, src).threads;
        }
      }
    case Wakeup(t) =>
      assert Placed(tb, t);
      if tb.threads[t].status == Suspend {
        assert tb.work.Some?;
        SwitchMoves(tb, t, Ready);
      }
  }

  lemma AdmitInv(tb: Table, t: nat, p: nat)
    requires Inv(tb) && t !in tb.threads && t < MAX_THREADS
    ensures Inv(Admitted(tb, t, p))
  {
    RegistrationIs(tb, t, p, true);
    var threads := tb.threads[t := Thread(Unset, Unset, p)];
    var r := Admitted(tb, t, p);
    EnqueueMembers(threads, tb.ready, t);
    SortedOnMembers(tb.threads, threads, tb.ready);
    SortedOnMembers(tb.threads, r.threads, tb.suspended);
    EnqueueKeepsOrder(threads, tb.ready, t);
    SortedCongruent(threads, r.threads, r.ready);
    forall u | u in r.threads ensures Placed(r, u) && Settled(r, u) && u < MAX_THREADS {
      assert u != t ==> Placed(tb, u) && Settled(tb, u);
    }
  }

  lemma SortedOnMembers(a: Threads, b: Threads, list: seq<nat>)
    requires Sorted(a, list)
    requires forall u :: u in list ==> Prio(a, u) == Prio(b, u)
    ensures Sorted(b, list)
  {}

  /** Every operation keeps the scheduler's invariant. */
  lemma {:induction false} StepInv(tb: Table, op: Op)
    requires Inv(tb) && Enabled(tb, op)
    ensures Inv(Step(tb, op))
  {
    StepIsChange(tb, op);
    match ChangeOf(tb, op)
    case Nothing =>
    case Pending => PendingInv(tb);
    case Refused(t) => RefusedInv(tb, t);
    case Launch => LaunchedInv(tb);
    case Relieve(dst) => RelievedInv(tb, dst);
    case Move(t, dst) => MovedInv(tb, t, dst);
    case Admit(t, p) => AdmitInv(tb, t, p);
  }
}
