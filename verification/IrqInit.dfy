/**
 * The bring-up of interrupt controllers in platform/irq/fwk_irq.c: the
 * available controllers are collected in tree order, and a worklist runs the
 * callback of a controller only once its interrupt parent has been set up.
 */
module IrqInit {
  import opened Common

  /** What running the callback of a controller gives; it has none, or it fails,
      or it succeeds. Any answer may be given, and since no callback runs twice
      it can be written down with the controller beforehand. */
  datatype Answer = Absent | Failed | Ready

  /** A device node as the collection loop sees it. */
  datatype Node =
    Node(np: nat, controller: bool, available: bool, matched: bool, irqParent: Option<nat>, answer: Answer)

  datatype Ctrl = Ctrl(np: nat, parent: Option<nat>, answer: Answer)

  ghost predicate OncePerNode(cs: seq<Ctrl>) {
    forall i, j :: 0 <= i < j < |cs| ==> cs[i].np != cs[j].np
  }

  // ------------------------------------------------------- lists and filters

  /** The controllers below `q` that have a callback, in list order. */
  function Kids(cs: seq<Ctrl>, q: Option<nat>): seq<Ctrl>
  {
    if cs == [] then []
    else
      var c := cs[|cs| - 1];
      Kids(cs[..|cs| - 1], q) + if c.parent == q && c.answer != Absent then [c] else []
  }

  /** The controllers below none of `qs`. */
  function Unseen(cs: seq<Ctrl>, qs: seq<Option<nat>>): seq<Ctrl>
  {
    if cs == [] then []
    else
      var c := cs[|cs| - 1];
      Unseen(cs[..|cs| - 1], qs) + if c.parent !in qs then [c] else []
  }

  /** The controllers whose callback succeeds. */
  function Started(cs: seq<Ctrl>): seq<Ctrl>
  {
    if cs == [] then []
    else
      var c := cs[|cs| - 1];
      Started(cs[..|cs| - 1]) + if c.answer.Ready? then [c] else []
  }

  function Names(cs: seq<Ctrl>): (r: seq<Option<nat>>)
    ensures |r| == |cs| && forall i :: 0 <= i < |cs| ==> r[i] == Some(cs[i].np)
  {
    seq(|cs|, i requires 0 <= i < |cs| => Some(cs[i].np))
  }

  /** Everything that is called when the worklist goes through `qs`. */
  function Levels(cs: seq<Ctrl>, qs: seq<Option<nat>>): seq<Ctrl>
  {
    if qs == [] then [] else Levels(cs, qs[..|qs| - 1]) + Kids(cs, qs[|qs| - 1])
  }

  /** The nodes the worklist goes through: no parent, then every node that
      started. */
  function Queue(calls: seq<Ctrl>): seq<Option<nat>> {
    [None] + Names(Started(calls))
  }

  ghost predicate ParentFirst(calls: seq<Ctrl>) {
    forall i :: 0 <= i < |calls| && calls[i].parent.Some? ==> StartedBefore(calls, i, calls[i].parent.value)
  }

  ghost predicate StartedBefore(calls: seq<Ctrl>, i: int, np: nat) {
    exists j :: 0 <= j < i && j < |calls| && calls[j].np == np && calls[j].answer.Ready?
  }

  /** `calls` is the breadth-first order: it consists of the children of the
      nodes that it starts, node by node in the order they start. */
  ghost predicate BreadthFirst(cs: seq<Ctrl>, calls: seq<Ctrl>) {
    calls == Levels(cs, Queue(calls)) && ParentFirst(calls)
  }

  lemma {:induction false} KidsHas(cs: seq<Ctrl>, q: Option<nat>, c: Ctrl)
    ensures c in Kids(cs, q) <==> c in cs && c.parent == q && c.answer != Absent
  {
    if cs != [] {
      KidsHas(cs[..|cs| - 1], q, c);
      assert cs == cs[..|cs| - 1] + [cs[|cs| - 1]];
    }
  }

  lemma {:induction false} UnseenHas(cs: seq<Ctrl>, qs: seq<Option<nat>>, c: Ctrl)
    ensures c in Unseen(cs, qs) <==> c in cs && c.parent !in qs
  {
    if cs != [] {
      UnseenHas(cs[..|cs| - 1], qs, c);
      assert cs == cs[..|cs| - 1] + [cs[|cs| - 1]];
    }
  }

  lemma {:induction false} StartedHas(cs: seq<Ctrl>, c: Ctrl)
    ensures c in Started(cs) <==> c in cs && c.answer.Ready?
  {
    if cs != [] {
      StartedHas(cs[..|cs| - 1], c);
      assert cs == cs[..|cs| - 1] + [cs[|cs| - 1]];
    }
  }

  lemma {:induction false} LevelsHas(cs: seq<Ctrl>, qs: seq<Option<nat>>, c: Ctrl)
    ensures c in Levels(cs, qs) <==> c in cs && c.parent in qs && c.answer != Absent
  {
    if qs != [] {
      var n := |qs| - 1;
      LevelsHas(cs, qs[..n], c);
      KidsHas(cs, qs[n], c);
      assert qs == qs[..n] + [qs[n]];
    }
  }

  /** A node is in the queue exactly when its callback ran and succeeded. */
  lemma QueueHas(calls: seq<Ctrl>, np: nat)
    ensures None in Queue(calls)
    ensures Some(np) in Queue(calls) <==> exists p :: p in calls && p.np == np && p.answer.Ready?
  {
    hide Started;
    var s, queue := Started(calls), Queue(calls);
    assert queue[0] == None;
    if Some(np) in queue {
      var m :| 0 <= m < |queue| && queue[m] == Some(np);
      assert s[m - 1] in s;
      StartedHas(calls, s[m - 1]);
    }
    if p :| p in calls && p.np == np && p.answer.Ready? {
      StartedHas(calls, p);
      var m :| 0 <= m < |s| && s[m] == p;
      assert queue[m + 1] == Some(np);
    }
  }

  lemma {:induction false} KidsOfUnseen(cs: seq<Ctrl>, qs: seq<Option<nat>>, q: Option<nat>)
    requires q !in qs
    ensures Kids(Unseen(cs, qs), q) == Kids(cs, q)
  {
    if cs != [] {
      var n := |cs| - 1;
      KidsOfUnseen(cs[..n], qs, q);
      if cs[n].parent !in qs {
        assert Unseen(cs, qs)[..|Unseen(cs, qs)| - 1] == Unseen(cs[..n], qs);
      } else {
        assert Unseen(cs, qs) == Unseen(cs[..n], qs);
      }
    }
  }

  lemma {:induction false} UnseenTwice(cs: seq<Ctrl>, qs: seq<Option<nat>>, q: Option<nat>)
    ensures Unseen(Unseen(cs, qs), [q]) == Unseen(cs, qs + [q])
  {
    if cs != [] {
      var n := |cs| - 1;
      UnseenTwice(cs[..n], qs, q);
      if cs[n].parent !in qs {
        assert Unseen(cs, qs)[..|Unseen(cs, qs)| - 1] == Unseen(cs[..n], qs);
      } else {
        assert Unseen(cs, qs) == Unseen(cs[..n], qs);
      }
    }
  }

  lemma {:induction false} UnseenAll(cs: seq<Ctrl>)
    ensures Unseen(cs, []) == cs
  {
    if cs != [] {
      UnseenAll(cs[..|cs| - 1]);
    }
  }

  lemma {:induction false} StartedAppends(a: seq<Ctrl>, b: seq<Ctrl>)
    ensures Started(a + b) == Started(a) + Started(b)
  {
    if b == [] {
      assert a + b == a;
    } else {
      var n := |b| - 1;
      StartedAppends(a, b[..n]);
      assert (a + b)[..|a + b| - 1] == a + b[..n];
    }
  }

  lemma LevelsNext(cs: seq<Ctrl>, qs: seq<Option<nat>>, q: Option<nat>)
    ensures Levels(cs, qs + [q]) == Levels(cs, qs) + Kids(cs, q)
  {
    assert (qs + [q])[..|qs|] == qs;
  }

  lemma {:induction false} NoKids(cs: seq<Ctrl>, qs: seq<Option<nat>>, more: seq<Option<nat>>)
    requires Unseen(cs, qs) == []
    requires Distinct(qs + more)
    ensures Levels(cs, qs + more) == Levels(cs, qs)
    ensures Unseen(cs, qs + more) == []
  {
    hide Unseen, Levels, Kids;
    if more == [] {
      assert qs + more == qs;
    } else {
      var n := |more| - 1;
      var q, all := more[n], qs + more;
      assert all == (qs + more[..n]) + [q] && all[|qs| + n] == q;
      assert forall i :: 0 <= i < |qs| ==> all[i] == qs[i];
      assert Distinct(qs + more[..n]) by {
        assert qs + more[..n] == all[..|all| - 1];
      }
      NoKids(cs, qs, more[..n]);
      LevelsNext(cs, qs + more[..n], q);
      if Kids(cs, q) != [] {
        var c := Kids(cs, q)[0];
        KidsHas(cs, q, c);
        UnseenHas(cs, qs, c);
      }
      if Unseen(cs, all) != [] {
        var c := Unseen(cs, all)[0];
        UnseenHas(cs, all, c);
        UnseenHas(cs, qs, c);
      }
    }
  }

  // ------------------------------------------------------- distinct queues

  lemma {:induction false} KidsOnce(cs: seq<Ctrl>, q: Option<nat>)
    requires OncePerNode(cs)
    ensures OncePerNode(Kids(cs, q))
  {
    if cs != [] {
      var n := |cs| - 1;
      KidsOnce(cs[..n], q);
      var k := Kids(cs[..n], q);
      forall i | 0 <= i < |k| ensures k[i].np != cs[n].np {
        KidsHas(cs[..n], q, k[i]);
      }
    }
  }

  lemma SameNode(cs: seq<Ctrl>, a: Ctrl, b: Ctrl)
    requires OncePerNode(cs) && a in cs && b in cs && a.np == b.np
    ensures a == b
  {
    var i :| 0 <= i < |cs| && cs[i] == a;
    var j :| 0 <= j < |cs| && cs[j] == b;
    if i < j {} else if j < i {}
  }

  lemma {:induction false} LevelsOnce(cs: seq<Ctrl>, qs: seq<Option<nat>>)
    requires OncePerNode(cs) && Distinct(qs)
    ensures OncePerNode(Levels(cs, qs))
  {
    if qs != [] {
      var n := |qs| - 1;
      var l, k := Levels(cs, qs[..n]), Kids(cs, qs[n]);
      LevelsOnce(cs, qs[..n]);
      KidsOnce(cs, qs[n]);
      forall i, j | 0 <= i < |l| && 0 <= j < |k| ensures l[i].np != k[j].np {
        LevelsHas(cs, qs[..n], l[i]);
        KidsHas(cs, qs[n], k[j]);
        if l[i].np == k[j].np {
          SameNode(cs, l[i], k[j]);
        }
      }
    }
  }

  lemma {:induction false} StartedOnce(cs: seq<Ctrl>)
    requires OncePerNode(cs)
    ensures OncePerNode(Started(cs))
  {
    if cs != [] {
      var n := |cs| - 1;
      var s := Started(cs[..n]);
      StartedOnce(cs[..n]);
      forall i | 0 <= i < |s| ensures s[i].np != cs[n].np {
        StartedHas(cs[..n], s[i]);
      }
    }
  }

  lemma QueueDistinct(calls: seq<Ctrl>)
    requires OncePerNode(calls)
    ensures Distinct(Queue(calls))
  {
    StartedOnce(calls);
  }

  lemma ParentFirstAppends(cs: seq<Ctrl>, calls: seq<Ctrl>, q: Option<nat>)
    requires ParentFirst(calls) && q in Queue(calls)
    ensures ParentFirst(calls + Kids(cs, q))
  {
    var k := Kids(cs, q);
    var all := calls + k;
    forall i | 0 <= i < |all| && all[i].parent.Some? ensures StartedBefore(all, i, all[i].parent.value) {
      if i < |calls| {
        assert StartedBefore(calls, i, calls[i].parent.value);
        var j :| 0 <= j < i && calls[j].np == calls[i].parent.value && calls[j].answer.Ready?;
        assert all[j] == calls[j];
      } else {
        KidsHas(cs, q, k[i - |calls|]);
        QueueHas(calls, q.value);
        var p :| p in calls && p.np == q.value && p.answer.Ready?;
        var j :| 0 <= j < |calls| && calls[j] == p;
        assert all[j] == calls[j];
      }
    }
  }

  // ------------------------------------------------------------ the methods

  /** The matching, available controllers; a node that names itself as its
      interrupt parent counts as having none. */
  function Controllers(nodes: seq<Node>): (r: seq<Ctrl>)
    ensures forall c :: c in r ==> c.parent != Some(c.np) && exists n :: n in nodes && n.np == c.np
  {
    if nodes == [] then []
    else
      var n := nodes[|nodes| - 1];
      Controllers(nodes[..|nodes| - 1])
      + if n.controller && n.available && n.matched then
          [Ctrl(n.np, if n.irqParent == Some(n.np) then None else n.irqParent, n.answer)]
        else []
  }

  /** The controller that a node makes: it is one, it is available and it matches;
      its parent is the node's interrupt parent, if that is not the node itself. */
  predicate Makes(n: Node, c: Ctrl) {
    && n.controller && n.available && n.matched
    && c.np == n.np && c.answer == n.answer
    && (n.irqParent == Some(n.np) ==> c.parent == None)
    && (n.irqParent != Some(n.np) ==> c.parent == n.irqParent)
  }

  /** The controllers are those that the nodes make, and no others. */
  lemma {:induction false} ControllersAre(nodes: seq<Node>, c: Ctrl)
    ensures c in Controllers(nodes) <==> exists n :: n in nodes && Makes(n, c)
  {
    if nodes != [] {
      var last := nodes[|nodes| - 1];
      ControllersAre(nodes[..|nodes| - 1], c);
      assert nodes == nodes[..|nodes| - 1] + [last];
      assert Makes(last, c) ==> last in nodes;
    }
  }

  /** They are in the order of the nodes. */
  lemma {:induction false} ControllersInOrder(nodes: seq<Node>, i: nat, j: nat) returns (a: nat, b: nat)
    requires i < j < |Controllers(nodes)|
    ensures a < b < |nodes| && Makes(nodes[a], Controllers(nodes)[i]) && Makes(nodes[b], Controllers(nodes)[j])
  {
    var n := |nodes| - 1;
    var cs := Controllers(nodes[..n]);
    if j < |cs| {
      a, b := ControllersInOrder(nodes[..n], i, j);
    } else {
      b := n;
      ControllersAre(nodes[..n], cs[i]);
      var m :| m in nodes[..n] && Makes(m, cs[i]);
      a :| 0 <= a < n && nodes[..n][a] == m;
    }
  }

  /** The tree lists each node once, so each controller is collected once. */
  lemma {:induction false} ControllersOnce(nodes: seq<Node>)
    requires forall i, j :: 0 <= i < j < |nodes| ==> nodes[i].np != nodes[j].np
    ensures OncePerNode(Controllers(nodes))
  {
    if nodes != [] {
      var n := |nodes| - 1;
      var cs := Controllers(nodes[..n]);
      ControllersOnce(nodes[..n]);
      forall i | 0 <= i < |cs| ensures cs[i].np != nodes[n].np {
        assert cs[i] in cs;
      }
    }
  }

  method Collect(nodes: seq<Node>) returns (descs: seq<Ctrl>)
    ensures descs == Controllers(nodes)
    ensures forall c :: c in descs <==> exists n :: n in nodes && Makes(n, c)
  {
    descs := [];
    for i := 0 to |nodes|
      invariant descs == Controllers(nodes[..i])
    {
      assert nodes[..i + 1][..i] == nodes[..i];
      var n := nodes[i];
      if !n.controller || !n.available {
        continue;
      }
      if !n.matched {
        continue;
      }
      var parent := n.irqParent;
      if Some(n.np) == parent {
        parent := None;
      }
      descs := descs + [Ctrl(n.np, parent, n.answer)];
    }
    assert nodes[..|nodes|] == nodes;
    forall c ensures c in descs <==> exists n :: n in nodes && Makes(n, c) {
      ControllersAre(nodes, c);
    }
  }

  lemma FiltersOfNone(q: Option<nat>)
    ensures Unseen([], [q]) == [] && Kids([], q) == [] && Started([]) == []
  {}

  lemma FiltersNext(all: seq<Ctrl>, n: nat, q: Option<nat>)
    requires n < |all|
    ensures var c := all[n];
      && Unseen(all[..n + 1], [q]) == Unseen(all[..n], [q]) + (if c.parent != q then [c] else [])
      && Kids(all[..n + 1], q) == Kids(all[..n], q) + (if c.parent == q && c.answer != Absent then [c] else [])
  {
    assert all[..n + 1][..n] == all[..n];
  }

  lemma StartedNext(calls: seq<Ctrl>, c: Ctrl)
    ensures Started(calls + [c]) == Started(calls) + (if c.answer.Ready? then [c] else [])
  {
    assert (calls + [c])[..|calls|] == calls;
  }

  /** A pass moves controllers from one list to the other, or drops them. */
  lemma {:induction false} PassShrinks(work: seq<Ctrl>, q: Option<nat>)
    ensures |Unseen(work, [q])| + |Started(Kids(work, q))| <= |work|
  {
    if work != [] {
      var n := |work| - 1;
      PassShrinks(work[..n], q);
      StartedNext(Kids(work[..n], q), work[n]);
      if work[n].parent != q || work[n].answer.Absent? {
        assert Kids(work, q) == Kids(work[..n], q);
      }
    }
  }

  /** One pass over the worklist: takes out every controller below `parent`,
      runs its callback and keeps it if that succeeds. */
  method Scan(work: seq<Ctrl>, parent: Option<nat>) returns (descs: seq<Ctrl>, started: seq<Ctrl>, calls: seq<Ctrl>)
    ensures descs == Unseen(work, [parent])
    ensures calls == Kids(work, parent)
    ensures started == Started(Kids(work, parent))
  {
    hide Unseen, Kids, Started;
    descs, started, calls := work, [], [];
    FiltersOfNone(parent);
    var i := 0;
    ghost var n := 0;
    while i < |descs|
      invariant 0 <= n <= |work| && i == |Unseen(work[..n], [parent])|
      invariant descs == Unseen(work[..n], [parent]) + work[n..]
      invariant calls == Kids(work[..n], parent) && started == Started(calls)
      decreases |work| - n
    {
      var c := descs[i];
      FiltersNext(work, n, parent);
      StartedNext(calls, c);
      n := n + 1;
      if parent != c.parent {
        i := i + 1;
        continue;
      }
      descs := descs[..i] + descs[i + 1..];
      if c.answer.Absent? {
        continue;
      }
      calls := calls + [c];
      if c.answer.Failed? {
        continue;
      }
      started := started + [c];
    }
    assert work[..n] == work;
  }

  /** What holds when the worklist has gone through `order`. */
  ghost predicate Progress(cs: seq<Ctrl>, order: seq<Option<nat>>, descs: seq<Ctrl>, calls: seq<Ctrl>) {
    && descs == Unseen(cs, order) && calls == Levels(cs, order)
    && ParentFirst(calls) && Distinct(Queue(calls))
  }

  lemma NamesAppend(a: seq<Ctrl>, b: seq<Ctrl>)
    ensures Names(a + b) == Names(a) + Names(b)
  {}

  lemma ProgressStart(cs: seq<Ctrl>)
    ensures Progress(cs, [], cs, []) && Queue([]) == [None]
  {
    UnseenAll(cs);
  }

  lemma ProgressNext(cs: seq<Ctrl>, order: seq<Option<nat>>, descs: seq<Ctrl>, calls: seq<Ctrl>,
                     q: Option<nat>, rest: seq<Option<nat>>)
    requires OncePerNode(cs) && Progress(cs, order, descs, calls)
    requires Queue(calls) == order + [q] + rest
    ensures var k := Kids(descs, q);
      && Progress(cs, order + [q], Unseen(descs, [q]), calls + k)
      && Queue(calls + k) == order + [q] + rest + Names(Started(k))
  {
    hide Unseen, Kids, Started, Levels, Names, ParentFirst;
    var queue := Queue(calls);
    assert queue[|order|] == q && q in queue;
    assert Distinct(order + [q]) by {
      assert order + [q] == queue[..|order| + 1];
    }
    assert q !in order by {
      assert forall i :: 0 <= i < |order| ==> queue[i] == order[i];
    }
    KidsOfUnseen(cs, order, q);
    UnseenTwice(cs, order, q);
    LevelsNext(cs, order, q);
    ParentFirstAppends(cs, calls, q);
    StartedAppends(calls, Kids(cs, q));
    NamesAppend(Started(calls), Started(Kids(cs, q)));
    LevelsOnce(cs, order + [q]);
    QueueDistinct(calls + Kids(cs, q));
  }

  lemma Finished(cs: seq<Ctrl>, order: seq<Option<nat>>, descs: seq<Ctrl>, calls: seq<Ctrl>,
                 rest: seq<Option<nat>>)
    requires OncePerNode(cs) && Progress(cs, order, descs, calls)
    requires Queue(calls) == order + rest && (descs == [] || rest == [])
    ensures BreadthFirst(cs, calls) && OncePerNode(calls) && descs == Unseen(cs, Queue(calls))
  {
    if descs == [] {
      NoKids(cs, order, rest);
    } else {
      assert order + rest == order;
    }
    CalledOnce(cs, calls);
  }

  /** Brings up the controllers; `calls` are the callbacks run, in order, and
      `left` the controllers never reached. */
  method Init(cs: seq<Ctrl>) returns (calls: seq<Ctrl>, left: seq<Ctrl>)
    requires OncePerNode(cs)
    ensures BreadthFirst(cs, calls) && OncePerNode(calls)
    ensures left == Unseen(cs, Queue(calls))
  {
    var descs, parents: seq<Ctrl> := cs, [];
    var parent: Option<nat> := None;
    calls := [];
    ghost var order: seq<Option<nat>> := [];
    ProgressStart(cs);
    hide Unseen, Kids, Started, Names, Progress, Queue, BreadthFirst;
    while descs != []
      invariant Progress(cs, order, descs, calls)
      invariant Queue(calls) == order + [parent] + Names(parents)
      decreases |descs| + |parents|
    {
      ProgressNext(cs, order, descs, calls, parent, Names(parents));
      var started, called;
      PassShrinks(descs, parent);
      descs, started, called := Scan(descs, parent);
      calls := calls + called;
      NamesAppend(parents, started);
      parents := parents + started;
      order := order + [parent];
      assert Queue(calls) == order + Names(parents);
      if parents == [] {
        Finished(cs, order, descs, calls, []);
        return calls, descs;
      }
      NamesAppend([parents[0]], parents[1..]);
      assert [parents[0]] + parents[1..] == parents && Names([parents[0]]) == [Some(parents[0].np)];
      parent := Some(parents[0].np);
      parents := parents[1..];
    }
    Finished(cs, order, descs, calls, [parent] + Names(parents));
    left := descs;
  }

  // -------------------------------------------------- what breadth-first means

  /** The turn of `c` comes at depth `k`: it has no parent, or its parent's turn
      comes one earlier and its callback succeeds. */
  ghost predicate Comes(cs: seq<Ctrl>, c: Ctrl, k: nat)
    decreases k
  {
    if k == 0 then c.parent.None?
    else c.parent.Some? && exists p :: p in cs && p.np == c.parent.value && p.answer.Ready? && Comes(cs, p, k - 1)
  }

  /** No callback runs twice, and only controllers of the list are called. */
  lemma {:induction false} CalledOnce(cs: seq<Ctrl>, calls: seq<Ctrl>)
    requires OncePerNode(cs) && BreadthFirst(cs, calls) && Distinct(Queue(calls))
    ensures OncePerNode(calls) && forall c :: c in calls ==> c in cs && c.answer != Absent
  {
    forall c | c in calls ensures c in cs && c.answer != Absent {
      LevelsHas(cs, Queue(calls), c);
    }
    LevelsOnce(cs, Queue(calls));
  }

  lemma {:induction false} CalledComes(cs: seq<Ctrl>, calls: seq<Ctrl>, i: nat) returns (k: nat)
    requires BreadthFirst(cs, calls) && i < |calls|
    ensures Comes(cs, calls[i], k)
    decreases i
  {
    if calls[i].parent.None? {
      return 0;
    }
    assert StartedBefore(calls, i, calls[i].parent.value);
    var j :| 0 <= j < i && calls[j].np == calls[i].parent.value && calls[j].answer.Ready?;
    LevelsHas(cs, Queue(calls), calls[j]);
    k := CalledComes(cs, calls, j);
    k := k + 1;
  }

  lemma {:induction false} ComesIsCalled(cs: seq<Ctrl>, calls: seq<Ctrl>, c: Ctrl, k: nat)
    requires BreadthFirst(cs, calls) && c in cs && Comes(cs, c, k)
    ensures c.parent in Queue(calls)
    ensures c.answer != Absent ==> c in calls
    decreases k
  {
    if k > 0 {
      var p :| p in cs && p.np == c.parent.value && p.answer.Ready? && Comes(cs, p, k - 1);
      ComesIsCalled(cs, calls, p, k - 1);
      QueueHas(calls, p.np);
    } else {
      QueueHas(calls, 0);
    }
    LevelsHas(cs, Queue(calls), c);
  }

  /** The callbacks that run are exactly those whose turn comes: the controllers
      connected to a parentless one by parents that all came up. */
  lemma {:induction false} CalledIff(cs: seq<Ctrl>, calls: seq<Ctrl>, c: Ctrl)
    requires BreadthFirst(cs, calls) && c in cs
    ensures c in calls <==> c.answer != Absent && exists k :: Comes(cs, c, k)
  {
    if c in calls {
      var i :| 0 <= i < |calls| && calls[i] == c;
      var k := CalledComes(cs, calls, i);
      assert Comes(cs, c, k);
      LevelsHas(cs, Queue(calls), c);
    }
    if c.answer != Absent && exists k :: Comes(cs, c, k) {
      var k :| Comes(cs, c, k);
      ComesIsCalled(cs, calls, c, k);
    }
  }

  /** A controller is left over exactly when it has a parent that never came
      up. */
  lemma {:induction false} LeftIff(cs: seq<Ctrl>, calls: seq<Ctrl>, c: Ctrl)
    requires BreadthFirst(cs, calls) && c in cs
    ensures c in Unseen(cs, Queue(calls)) <==>
      c.parent.Some? && !(exists p :: p in calls && p.np == c.parent.value && p.answer.Ready?)
  {
    UnseenHas(cs, Queue(calls), c);
    QueueHas(calls, if c.parent.Some? then c.parent.value else 0);
  }

  // ------------------------------------------------------------ depth order

  lemma {:induction false} LevelsAt(cs: seq<Ctrl>, qs: seq<Option<nat>>, i: nat, j: nat)
    returns (x: nat, y: nat)
    requires i <= j < |Levels(cs, qs)|
    ensures x <= y < |qs|
    ensures Levels(cs, qs)[i].parent == qs[x] && Levels(cs, qs)[j].parent == qs[y]
  {
    var n := |qs| - 1;
    var l, k := Levels(cs, qs[..n]), Kids(cs, qs[n]);
    if j < |l| {
      x, y := LevelsAt(cs, qs[..n], i, j);
    } else {
      y := n;
      KidsHas(cs, qs[n], k[j - |l|]);
      if i < |l| {
        x, y := LevelsAt(cs, qs[..n], i, i);
        y := n;
      } else {
        x := n;
        KidsHas(cs, qs[n], k[i - |l|]);
      }
    }
  }

  lemma {:induction false} StartedAt(calls: seq<Ctrl>, x: nat, y: nat) returns (i: nat, j: nat)
    requires x <= y < |Started(calls)|
    ensures i <= j < |calls| && calls[i] == Started(calls)[x] && calls[j] == Started(calls)[y]
  {
    var n := |calls| - 1;
    var s := Started(calls[..n]);
    if y < |s| {
      i, j := StartedAt(calls[..n], x, y);
    } else if x < |s| {
      i, j := StartedAt(calls[..n], x, x);
      j := n;
    } else {
      i, j := n, n;
    }
  }

  lemma ComesParent(cs: seq<Ctrl>, c: Ctrl, k: nat, p: Ctrl)
    requires OncePerNode(cs) && Comes(cs, c, k) && p in cs && c.parent == Some(p.np)
    ensures k > 0 && Comes(cs, p, k - 1)
  {
    var u :| u in cs && u.np == c.parent.value && u.answer.Ready? && Comes(cs, u, k - 1);
    SameNode(cs, u, p);
  }

  /** Callbacks run in order of depth below the parentless controllers. */
  lemma {:induction false} DepthOrder(cs: seq<Ctrl>, calls: seq<Ctrl>, i: nat, j: nat, a: nat, b: nat)
    requires OncePerNode(cs) && BreadthFirst(cs, calls) && i <= j < |calls|
    requires Comes(cs, calls[i], a) && Comes(cs, calls[j], b)
    ensures a <= b
    decreases b
  {
    hide Levels, Started, ParentFirst;
    var x, y := LevelsAt(cs, Queue(calls), i, j);
    if x > 0 {
      var i', j' := StartedAt(calls, x - 1, y - 1);
      LevelsHas(cs, Queue(calls), calls[i']);
      LevelsHas(cs, Queue(calls), calls[j']);
      ComesParent(cs, calls[i], a, calls[i']);
      ComesParent(cs, calls[j], b, calls[j']);
      DepthOrder(cs, calls, i', j', a - 1, b - 1);
    }
  }

  // --------------------------------------------------------- order of calls

  lemma {:induction false} KidsAt(cs: seq<Ctrl>, q: Option<nat>, i: nat, j: nat) returns (a: nat, b: nat)
    requires i < j < |Kids(cs, q)|
    ensures a < b < |cs| && cs[a] == Kids(cs, q)[i] && cs[b] == Kids(cs, q)[j]
  {
    var n := |cs| - 1;
    var k := Kids(cs[..n], q);
    if j < |k| {
      a, b := KidsAt(cs[..n], q, i, j);
    } else {
      b := n;
      KidsHas(cs[..n], q, k[i]);
      a :| 0 <= a < n && cs[..n][a] == k[i];
    }
  }

  lemma {:induction false} SiblingsAt(cs: seq<Ctrl>, qs: seq<Option<nat>>, i: nat, j: nat) returns (a: nat, b: nat)
    requires Distinct(qs) && i < j < |Levels(cs, qs)| && Levels(cs, qs)[i].parent == Levels(cs, qs)[j].parent
    ensures a < b < |cs| && cs[a] == Levels(cs, qs)[i] && cs[b] == Levels(cs, qs)[j]
  {
    var n := |qs| - 1;
    var l, k := Levels(cs, qs[..n]), Kids(cs, qs[n]);
    if j < |l| {
      a, b := SiblingsAt(cs, qs[..n], i, j);
    } else {
      KidsHas(cs, qs[n], k[j - |l|]);
      if i < |l| {
        LevelsHas(cs, qs[..n], l[i]);
        assert false;
      } else {
        a, b := KidsAt(cs, qs[n], i - |l|, j - |l|);
      }
    }
  }

  /** Callbacks of one parent run in the order of the list. */
  lemma SiblingsInOrder(cs: seq<Ctrl>, calls: seq<Ctrl>, i: nat, j: nat) returns (a: nat, b: nat)
    requires BreadthFirst(cs, calls) && OncePerNode(calls) && i < j < |calls| && calls[i].parent == calls[j].parent
    ensures a < b < |cs| && cs[a] == calls[i] && cs[b] == calls[j]
  {
    QueueDistinct(calls);
    a, b := SiblingsAt(cs, Queue(calls), i, j);
  }

  /** Callbacks of different parents run in the order in which the parents did. */
  lemma CousinsInOrder(cs: seq<Ctrl>, calls: seq<Ctrl>, i: nat, j: nat) returns (a: nat, b: nat)
    requires BreadthFirst(cs, calls) && i < j < |calls|
    requires calls[i].parent.Some? && calls[j].parent.Some? && calls[i].parent != calls[j].parent
    ensures a < b < |calls| && Some(calls[a].np) == calls[i].parent && Some(calls[b].np) == calls[j].parent
  {
    hide Levels, Started, ParentFirst;
    var x, y := LevelsAt(cs, Queue(calls), i, j);
    a, b := StartedAt(calls, x - 1, y - 1);
  }
}
