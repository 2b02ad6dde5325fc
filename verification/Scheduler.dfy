/**
 * The thread scheduler of kernel/sched.c: one running slot and two lists of
 * threads, ready and suspended, each kept in priority order (a smaller number
 * is a higher priority) by the insertion that the build selects.
 *
 * `Table` is the value of the scheduler's global table, the functions on it
 * specify each operation; class `ThreadTable` is the table updated in place.
 */
module Scheduler {
  import opened Common

  const TID_IDLE: nat := 0
  const MAX_THREADS: nat := 128

  /** `Unset` is the zero status: no status, or no requested target. */
  datatype Status = Unset | Running | Ready | Suspend

  datatype Code = Normal | Error | NoMem | Invalid | Fault

  datatype Thread = Thread(status: Status, target: Status, priority: nat)

  type Threads = map<nat, Thread>

  datatype Table = Table(
    threads: Threads,
    ready: seq<nat>,
    suspended: seq<nat>,
    work: Option<nat>,
    started: bool)

  const EMPTY: Table := Table(map[], [], [], None, false)

  /** The thread in the running slot and the head of the ready list, which the
      code dereferences, are registered. */
  ghost predicate Handles(tb: Table) {
    && (tb.work.Some? ==> tb.work.value in tb.threads)
    && (tb.ready != [] ==> tb.ready[0] in tb.threads)
  }

  /** Every thread the table names is registered. */
  ghost predicate Closed(tb: Table) {
    && (forall t :: t in tb.ready ==> t in tb.threads)
    && (forall t :: t in tb.suspended ==> t in tb.threads)
    && (tb.work.Some? ==> tb.work.value in tb.threads)
  }

  // ---------------------------------------------------------------- lists

  function Prio(threads: Threads, t: nat): nat {
    if t in threads then threads[t].priority else 0
  }

  /** How many leading threads of `list` a newcomer of priority `p` goes
      behind: all those up to the last one that it does not outrank. */
  function Position(threads: Threads, list: seq<nat>, p: nat): (k: nat)
    ensures k <= |list|
    ensures k > 0 ==> Prio(threads, list[k - 1]) <= p
    ensures forall i :: k <= i < |list| ==> p < Prio(threads, list[i])
  {
    if list == [] then 0
    else if Prio(threads, list[|list| - 1]) <= p then |list|
    else Position(threads, list[..|list| - 1], p)
  }

  lemma PositionUnique(threads: Threads, list: seq<nat>, p: nat, k: nat)
    requires k <= |list| && (k > 0 ==> Prio(threads, list[k - 1]) <= p)
    requires forall i :: k <= i < |list| ==> p < Prio(threads, list[i])
    ensures Position(threads, list, p) == k
  {}

  function Enqueue(threads: Threads, list: seq<nat>, t: nat): (r: seq<nat>)
  {
    if t in list then list
    else
      var k := Position(threads, list, Prio(threads, t));
      list[..k] + [t] + list[k..]
  }

  // ----------------------------------------------------- status transitions

  function Request(tb: Table, t: nat, target: Status): (r: Table)
    requires t in tb.threads
  {
    tb.(threads := tb.threads[t := tb.threads[t].(target := target)])
  }

  function Sync(tb: Table, t: nat, status: Status): (r: Table)
    requires t in tb.threads
  {
    tb.(threads := tb.threads[t := tb.threads[t].(status := status, target := Unset)])
  }

  function Detach(tb: Table, t: nat): (r: Table)
    requires t in tb.threads
  {
    match tb.threads[t].status
    case Ready => tb.(ready := Without(tb.ready, t))
    case Suspend => tb.(suspended := Without(tb.suspended, t))
    case _ => tb
  }

  /** The head of the ready list takes the running slot. */
  function HandOver(tb: Table): (r: Table)
    requires Handles(tb) && tb.ready != []
  {
    var head := tb.ready[0];
    var tb1 := if tb.threads[head].status == Ready then tb.(ready := tb.ready[1..]) else tb;
    Sync(tb1.(work := Some(head)), head, Running)
  }

  function Enter(tb: Table, t: nat, target: Status): (r: (Table, Code))
    requires t in tb.threads && (tb.work.Some? ==> tb.work.value in tb.threads)
    ensures r.0.threads.Keys == tb.threads.Keys
    ensures target != Running ==> r.0.threads == tb.threads
  {
    match target
    case Ready =>
      if tb.threads[t].status == Ready then (tb, Invalid)
      else (tb.(ready := Enqueue(tb.threads, tb.ready, t)), Normal)
    case Suspend =>
      if tb.threads[t].status == Suspend then (tb, Invalid)
      else (tb.(suspended := Enqueue(tb.threads, tb.suspended, t)), Normal)
    case Running =>
      if tb.threads[t].status != Ready then (tb, Invalid)
      else if tb.work.None? then (tb.(work := Some(t)), Normal)
      else if tb.threads[tb.work.value].status == Ready then (tb, Invalid)
      else
        var prev := tb.work.value;
        (Sync(tb.(ready := Enqueue(tb.threads, tb.ready, prev)), prev, Ready).(work := Some(t)), Normal)
    case Unset => (tb, Error)
  }

  /** Moves `t` from its status to the one requested for it. */
  function Switch(tb: Table, t: nat): (r: (Table, Code))
    requires Handles(tb) && t in tb.threads
    requires tb.threads[t].status == Running ==> tb.work.Some?
  {
    var src, dst := tb.threads[t].status, tb.threads[t].target;
    if src == dst || (t == TID_IDLE && dst != Running && dst != Ready) then
      (Sync(tb, t, src), Invalid)
    else if src == Running && (tb.work.value != t || tb.ready == []) then
      (Sync(tb, t, src), Invalid)
    else
      var left := if src == Running then HandOver(tb) else Detach(tb, t);
      var (tb', code) := Enter(left, t, dst);
      if code != Normal || tb'.work.None? then (tb', code)
      else (Sync(tb', t, dst), Normal)
  }

  // -------------------------------------------------------------- invariant

  ghost predicate Sorted(threads: Threads, list: seq<nat>) {
    forall i, j :: 0 <= i < j < |list| ==> Prio(threads, list[i]) <= Prio(threads, list[j])
  }

  /** `t` is in the one place that its status names. */
  ghost predicate Placed(tb: Table, t: nat)
    requires t in tb.threads
  {
    var status := tb.threads[t].status;
    && status != Unset
    && (tb.work == Some(t) <==> status == Running)
    && (t in tb.ready <==> status == Ready)
    && (t in tb.suspended <==> status == Suspend)
  }

  /** Only the running thread can have a request pending, and only to suspend. */
  ghost predicate Settled(tb: Table, t: nat)
    requires t in tb.threads
  {
    var target := tb.threads[t].target;
    target == Unset || (target == Suspend && tb.work == Some(t))
  }

  /** Every thread is in one place, no place holds anything else, and idle is
      never suspended. */
  ghost predicate Places(tb: Table) {
    && Closed(tb)
    && (forall t :: t in tb.threads ==> Placed(tb, t) && Settled(tb, t) && t < MAX_THREADS)
    && (tb.work.Some? <==> tb.started)
    && (tb.work.None? ==> tb.suspended == [])
    && (TID_IDLE in tb.threads ==> tb.threads[TID_IDLE].status != Suspend)
  }

  /** A list of threads without duplicates, highest priority first. */
  ghost predicate Queue(threads: Threads, list: seq<nat>) {
    Distinct(list) && Sorted(threads, list)
  }

  ghost predicate Queues(tb: Table) {
    Queue(tb.threads, tb.ready) && Queue(tb.threads, tb.suspended)
  }

  /** What holds between any two scheduler operations. */
  ghost predicate Inv(tb: Table) {
    Places(tb) && Queues(tb)
  }

  // ------------------------------------------------------------ operations

  function Registered(tb: Table, t: nat, priority: nat, hasStack: bool): (r: (Table, Code))
  {
    if t in tb.threads then (tb, Invalid)
    else if !hasStack then (tb, NoMem)
    else
      var tb1 := tb.(threads := tb.threads[t := Thread(Unset, Unset, priority)]);
      (Sync(tb1.(ready := Enqueue(tb1.threads, tb1.ready, t)), t, Ready), Normal)
  }

  /** One call of the scheduler; the second component says whether it handed
      out a context to switch to. */
  function Scheduled(tb: Table): (r: (Table, bool))
    requires Places(tb)
  {
    if tb.ready == [] then (tb, false)
    else if tb.work.None? then
      var (tb', code) := Switch(Request(tb, tb.ready[0], Running), tb.ready[0]);
      (tb'.(started := true), true)
    else
      var t := tb.work.value;
      var (tb', code) := Switch(if tb.threads[t].target == Unset then Request(tb, t, Ready) else tb, t);
      (tb', code == Normal)
  }

  function SelfSuspended(tb: Table): (r: (Table, bool))
    requires Places(tb) && tb.work.Some?
  {
    PendingPlaces(tb);
    Scheduled(Request(tb, tb.work.value, Suspend))
  }

  function SuspendedThread(tb: Table, t: nat): (r: (Table, Code))
    requires Places(tb) && tb.work.Some? && t in tb.threads
  {
    if t == tb.work.value then (SelfSuspended(tb).0, Normal)
    else Switch(Request(tb, t, Suspend), t)
  }

  function Woken(tb: Table, t: nat): (r: (Table, Code))
    requires Handles(tb) && t in tb.threads
  {
    if tb.threads[t].status != Suspend then (tb, Invalid)
    else Switch(Request(tb, t, Ready), t)
  }

  lemma PendingPlaces(tb: Table)
    requires Places(tb) && tb.work.Some?
    ensures Places(Request(tb, tb.work.value, Suspend))
  {
    var tb' := Request(tb, tb.work.value, Suspend);
    forall t | t in tb'.threads ensures Placed(tb', t) && Settled(tb', t) && t < MAX_THREADS {
      assert Placed(tb, t) && Settled(tb, t);
    }
  }
}
