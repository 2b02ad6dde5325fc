/**
 * The radix tree of common/generic/radix_tree.c: a map from 32-bit numbers to
 * links, kept as a tree of nodes with eight branches.
 */
module RadixTree {
  import opened PathTree
  import opened RadixPaths

  const BLANK: seq<int> := [NULL, NULL, NULL, NULL, NULL, NULL, NULL, NULL]

  ghost predicate Wide(nodes: Heap) {
    forall a :: a in nodes ==> |nodes[a].branches| == FAN
  }

  /** The link that a tree holding `links` has for a number, or null. */
  function LinkOf(links: map<Path, int>, number: nat): int {
    if PathOf(number) in links then links[PathOf(number)] else NULL
  }

  /** Adding and deleting act as on a map from numbers: although one number's
      path may run through another's node, no other number's link changes. */
  lemma LinksFormMap(links: map<Path, int>, number: nat, link: int, m: nat)
    ensures LinkOf(links[PathOf(number) := link], m) == if m == number then link else LinkOf(links, m)
    ensures LinkOf(links - {PathOf(number)}, m) == if m == number then NULL else LinkOf(links, m)
  {
    if PathOf(m) == PathOf(number) {
      PathInjective(m, number);
    }
  }

  class Tree {
    var nodes: Heap
    ghost var at: Index
    ghost var links: map<Path, int>

    /** A well-formed tree that holds `links` and has exactly the nodes they
        need. */
    ghost predicate Valid()
      reads this
    {
      Shape(nodes, at, FAN, {}) && Wide(nodes) && Holds(nodes, at, links)
    }

    constructor ()
      ensures Valid() && links == map[] && at.Keys == {[]}
    {
      nodes := map[ROOT := Node(NULL, BLANK, NULL)];
      at := map[[] := ROOT];
      links := map[];
      new;
      EmptyShape();
    }

    lemma ValidParts()
      requires Valid()
      ensures Keyed(links) && Exact(at, links.Keys)
    {}

    lemma KeyedLinks()
      requires Valid()
      ensures forall w :: w in links ==> links[w] != NULL
    {}

    method FindNode(number: nat) returns (node: int)
      requires Valid() && number < WORD
      ensures node == if PathOf(number) in links then Ptr(at, PathOf(number)) else NULL
      ensures node != NULL <==> PathOf(number) in links
      ensures node != NULL ==> node in nodes && nodes[node].link == links[PathOf(number)]
    {
      ghost var w := PathOf(number);
      var lenth := NumLen(number);
      var value: nat, i: nat, offset: nat := number, 0, 0;
      ghost var j := 0;
      node := ROOT;
      assert w[..0] == [] && w[0..] == w;
      while node != NULL
        invariant 0 <= j <= |w| && i == 3 * j && node == Ptr(at, w[..j])
        invariant j < |w| ==> PathOf(value) == w[j..]
        decreases |w| - j
      {
        if i >= lenth {
          break;
        }
        PathStep(value);
        StepDown(nodes, at, FAN, {}, w, j);
        assert w[j] == w[j..][0] && (j + 1 < |w| ==> w[j..][1..] == w[j + 1..]);
        i := i + 3;
        offset := value % FAN;
        value := value / FAN;
        node := nodes[node].branches[offset];
        j := j + 1;
      }
      if node != NULL {
        assert w[..j] == w;
        return if nodes[node].link != NULL then node else NULL;
      }
      NotThere(nodes, at, links, w, j);
      return NULL;
    }

    method LookUp(number: nat) returns (link: int)
      requires Valid() && number < WORD
      ensures link == LinkOf(links, number)
    {
      var node := FindNode(number);
      return if node == NULL then NULL else nodes[node].link;
    }

    method AllocateNode(parent: int) returns (a: int)
      requires parent in nodes
      modifies this`nodes
      ensures a !in old(nodes) && a > ROOT
      ensures nodes == old(nodes)[a := Node(parent, BLANK, NULL)]
    {
      FreshAddress(nodes.Keys);
      a :| a !in nodes && a > ROOT;
      nodes := nodes[a := Node(parent, BLANK, NULL)];
    }

    /** Adds a link for a number that has none; a second add changes nothing,
        and no node already in the tree moves. */
    method Add(number: nat, link: int)
      requires Valid() && number < WORD
      modifies this
      ensures Valid()
      ensures links == if link == NULL || PathOf(number) in old(links) then old(links)
                       else old(links)[PathOf(number) := link]
      ensures forall p :: p in old(at) ==> p in at && at[p] == old(at)[p]
    {
      hide Shape, Holds, Wide;
      if link == NULL {
        return;
      }
      var found := FindNode(number);
      if found != NULL {
        return;
      }
      ghost var w := PathOf(number);
      ValidParts();
      var node := Grow(number);
      LinkHolds(nodes, at, FAN, old(at), links, w, link);
      WideAt(nodes, node);
      WideStays(nodes, node, nodes[node].(link := link));
      nodes := nodes[node := nodes[node].(link := link)];
      links := links[w := link];
    }

    /** Goes down one branch, hanging a node there if it is missing. */
    method Branch(node: int, offset: nat, ghost w: Path, ghost j: nat) returns (next: int)
      requires Shape(nodes, at, FAN, {}) && Wide(nodes) && LinksAt(nodes, at, links)
      requires j < |w| && w[..j] in at && node == at[w[..j]] && offset == w[j] && offset < FAN
      requires w[..j + 1] in links ==> w[..j + 1] in at
      modifies this`nodes, this`at
      ensures Shape(nodes, at, FAN, {}) && Wide(nodes) && LinksAt(nodes, at, links)
      ensures w[..j + 1] in at && next == at[w[..j + 1]]
      ensures at == if w[..j + 1] in old(at) then old(at) else old(at)[w[..j + 1] := next]
    {
      hide Shape, LinksAt, Wide;
      StepDown(nodes, at, FAN, {}, w, j);
      WideAt(nodes, node);
      if nodes[node].branches[offset] == NULL {
        NoNull(nodes, at, FAN, w[..j + 1]);
        ghost var before := nodes;
        var temp := AllocateNode(node);
        GrowStep(before, at, links, w, j, temp);
        nodes := nodes[node := nodes[node].(branches := nodes[node].branches[offset := temp])];
        at := at[w[..j + 1] := temp];
      }
      next := nodes[node].branches[offset];
    }

    /** Walks the path of a number, hanging the nodes that are missing. */
    method Grow(number: nat) returns (node: int)
      requires Valid() && number < WORD
      modifies this`nodes, this`at
      ensures Shape(nodes, at, FAN, {}) && Wide(nodes) && LinksAt(nodes, at, links)
      ensures node == Ptr(at, PathOf(number)) && node in nodes
      ensures GrownTo(old(at), at, PathOf(number))
    {
      ghost var w := PathOf(number);
      var lenth := NumLen(number);
      var value: nat, i: nat, offset: nat := number, 0, 0;
      ghost var j := 0;
      node := ROOT;
      assert w[..0] == [] && w[0..] == w;
      RootIn(nodes, at, links);
      hide Shape, Holds, LinksAt, Wide, GrownTo;
      assert GrownTo(old(at), at, w[..0]) by { GrownToNothing(at, w); }
      while i < lenth
        invariant 0 <= j <= |w| && i == 3 * j && w[..j] in at && node == at[w[..j]]
        invariant j < |w| ==> PathOf(value) == w[j..]
        invariant Shape(nodes, at, FAN, {}) && Wide(nodes) && LinksAt(nodes, at, links)
        invariant GrownTo(old(at), at, w[..j])
        decreases |w| - j
      {
        PathStep(value);
        assert w[j] == w[j..][0] && (j + 1 < |w| ==> w[j..][1..] == w[j + 1..]);
        offset := value % FAN;
        value := value / FAN;
        ghost var before := at;
        node := Branch(node, offset, w, j);
        IndexGrows(old(at), before, at, w, j, node);
        i := i + 3;
        j := j + 1;
      }
      assert w[..j] == w;
      NodeIn(nodes, at, FAN, w);
    }

    /** Clears the branch to `child`; says whether another branch is in use. It
        stops early once it knows. */
    method ClearBranch(node: int, child: int) returns (more: bool)
      requires node in nodes && |nodes[node].branches| == FAN
      requires child != NULL ==> Once(nodes[node].branches, child)
      modifies this`nodes
      ensures nodes == Unlinked(old(nodes), node, child)
      ensures more <==> exists i :: 0 <= i < FAN && nodes[node].branches[i] != NULL
    {
      ghost var was, goal := nodes[node].branches, Unlinked(nodes, node, child)[node].branches;
      var count := 0;
      var i := 0;
      while i < FAN
        invariant 0 <= i <= FAN && node in nodes && |nodes[node].branches| == FAN
        invariant nodes == old(nodes)[node := old(nodes)[node].(branches := nodes[node].branches)]
        invariant forall k :: 0 <= k < i ==> nodes[node].branches[k] == goal[k]
        invariant forall k :: i <= k < FAN ==> nodes[node].branches[k] == was[k]
        invariant count > 0 <==> exists k :: 0 <= k < i && goal[k] != NULL
      {
        if nodes[node].branches[i] == child {
          nodes := nodes[node := nodes[node].(branches := nodes[node].branches[i := NULL])];
          if count > 0 {
            assert nodes[node].branches == goal;
            return true;
          }
        }
        if nodes[node].branches[i] != NULL {
          count := count + 1;
        }
        i := i + 1;
      }
      assert nodes[node].branches == goal;
      return count > 0;
    }

    /** Clears `child` from `node`; a node left with neither branch nor link is
        taken out and freed, after its own parent has been dealt with. */
    method DelNode(node: int, child: int, ghost p: Path, ghost keys: set<Path>, ghost detached: set<int>)
      requires Wide(nodes) && LinkedAt(nodes, at, keys)
      requires node == NULL ==> Shape(nodes, at, FAN, detached)
      requires node != NULL ==> p in at && at[p] == node && node in nodes
      requires node != NULL ==> Shape(Unlinked(nodes, node, child), at, FAN, detached)
      requires node != NULL && child != NULL ==> Once(nodes[node].branches, child)
      modifies this`nodes, this`at
      ensures Shape(nodes, at, FAN, detached) && Wide(nodes)
      ensures at == if node == NULL then old(at) else Pruned(old(at), keys, p)
      ensures forall q :: q in at ==>
        q in old(at) && at[q] == old(at)[q] && at[q] in nodes && nodes[at[q]].link == old(nodes)[at[q]].link
      decreases if node == NULL then 0 else |p| + 1
    {
      hide Shape;
      if node == NULL {
        return;
      }
      WideAt(nodes, node);
      LinkedAtCut(nodes, at, keys, node, child, p);
      WideStays(nodes, node, Unlinked(nodes, node, child)[node]);
      var more := ClearBranch(node, child);
      LeafIff(nodes, at, FAN, detached, p);
      if more {
        return;
      }
      if nodes[node].link == NULL {
        RootIff(nodes, at, FAN, detached, p);
        ghost var detached' := detached;
        if p != [] {
          WideBound(nodes);
          PruneStep(nodes, at, FAN, detached, p);
          LinkedAtCut(nodes, at, keys, node, child, p);
          at := at - {p};
          detached' := detached + {node};
        }
        DelNode(nodes[node].parent, node, Up(p), keys, detached');
        if node != ROOT {
          FreeDetached(nodes, at, detached', node);
          nodes := nodes - {node};
        }
      }
    }

    /** Follows the path of a number down from the root. */
    method Walk(number: nat) returns (node: int)
      requires Valid() && number < WORD
      ensures node == Ptr(at, PathOf(number))
    {
      hide Shape, Holds;
      ghost var w := PathOf(number);
      RootIn(nodes, at, links);
      var lenth := NumLen(number);
      var value: nat, i: nat, offset: nat := number, 0, 0;
      node := ROOT;
      ghost var j := 0;
      assert w[..0] == [] && w[0..] == w;
      while i < lenth
        invariant 0 <= j <= |w| && i == 3 * j && node == Ptr(at, w[..j])
        invariant j < |w| ==> PathOf(value) == w[j..]
        decreases |w| - j
      {
        if node == NULL {
          if w in at {
            ShapePrefix(nodes, at, FAN, w, j);
          }
          return NULL;
        }
        PathStep(value);
        StepDown(nodes, at, FAN, {}, w, j);
        assert w[j] == w[j..][0] && (j + 1 < |w| ==> w[j..][1..] == w[j + 1..]);
        offset := value % FAN;
        value := value / FAN;
        node := nodes[node].branches[offset];
        i := i + 3;
        j := j + 1;
      }
      assert w[..j] == w;
    }

    /** Removes the link of a number, and with it exactly the nodes that no
        other number needs; the nodes that stay do not move. */
    method Del(number: nat)
      requires Valid() && number < WORD
      modifies this
      ensures Valid()
      ensures links == old(links) - {PathOf(number)}
      ensures forall p :: p in at ==> p in old(at) && at[p] == old(at)[p]
    {
      hide Shape, Holds, Wide;
      var node := Walk(number);
      NotLinked(nodes, at, FAN, links, PathOf(number));
      if node == NULL || nodes[node].link == NULL || node == ROOT {
        return;
      }
      Remove(node, PathOf(number));
    }

    /** Adding a number that is not there and deleting it again restores the
        links and the nodes, each at its own address. */
    method AddThenDel(number: nat, link: int)
      requires Valid() && number < WORD && link != NULL && LinkOf(links, number) == NULL
      modifies this
      ensures Valid() && links == old(links) && at == old(at)
    {
      hide Shape, Wide, Holds, PathOf;
      KeyedLinks();
      ghost var was, before, held := nodes, at, links;
      Add(number, link);
      ghost var between := at;
      Del(number);
      assert links == held by { assert PathOf(number) !in held; }
      SameNodes(was, before, held, between, nodes, at, links);
    }

    method Remove(node: int, ghost w: Path)
      requires Valid() && w in at && node == at[w] && node in nodes && nodes[node].link != NULL
      modifies this
      ensures Valid() && links == old(links) - {w}
      ensures forall p :: p in at ==> p in old(at) && at[p] == old(at)[p]
    {
      hide Shape, Holds, Wide, LinkedAt, Pruned;
      RootIn(nodes, at, links);
      ClearLink(nodes, at, FAN, links, w);
      WideAt(nodes, node);
      WideStays(nodes, node, nodes[node].(link := NULL));
      nodes := nodes[node := nodes[node].(link := NULL)];
      UnlinkNull(nodes, node);
      DelNode(node, NULL, w, links.Keys - {w}, {});
      PrunedHolds(old(nodes), old(at), links, w, nodes, at);
      links := links - {w};
    }
  }

  lemma SameNodes(nodes0: Heap, at0: Index, links0: map<Path, int>, at1: Index,
                  nodes: Heap, at: Index, links: map<Path, int>)
    requires Holds(nodes0, at0, links0) && Holds(nodes, at, links) && links == links0
    requires forall p :: p in at0 ==> p in at1 && at1[p] == at0[p]
    requires forall p :: p in at ==> p in at1 && at[p] == at1[p]
    ensures at == at0
  {
    KeysDetermineNodes(nodes0, at0, links0, nodes, at, links);
  }

  lemma WideBound(nodes: Heap)
    requires Wide(nodes)
    ensures forall a :: a in nodes ==> |nodes[a].branches| <= FAN
  {}

  lemma FreeDetached(nodes: Heap, at: Index, detached: set<int>, a: int)
    requires Shape(nodes, at, FAN, detached) && Wide(nodes) && a in detached
    ensures Shape(nodes - {a}, at, FAN, detached - {a}) && Wide(nodes - {a}) && a in nodes
    ensures forall q :: q in at ==> at[q] != a
  {
    FreeShape(nodes, at, FAN, detached, a);
  }

  lemma RootIn(nodes: Heap, at: Index, links: map<Path, int>)
    requires Shape(nodes, at, FAN, {}) && Holds(nodes, at, links)
    ensures [] in at && at[[]] == ROOT && LinksAt(nodes, at, links)
    ensures forall w :: w in links ==> w in at
  {
    forall w | w in links ensures w in at {
      assert Needed(links.Keys, w);
    }
  }

  lemma WideAt(nodes: Heap, a: int)
    requires Wide(nodes) && a in nodes
    ensures |nodes[a].branches| == FAN
  {}

  lemma EmptyShape()
    ensures Shape(map[ROOT := Node(NULL, BLANK, NULL)], map[[] := ROOT], FAN, {})
    ensures Wide(map[ROOT := Node(NULL, BLANK, NULL)])
    ensures Holds(map[ROOT := Node(NULL, BLANK, NULL)], map[[] := ROOT], map[])
  {
    var nodes, at: Index := map[ROOT := Node(NULL, BLANK, NULL)], map[[] := ROOT];
    assert at[[]] == ROOT;
    assert NodeAt(nodes, at, FAN, []);
  }

  lemma WideStays(nodes: Heap, a: int, nd: Node)
    requires Wide(nodes) && |nd.branches| == FAN
    ensures Wide(nodes[a := nd])
  {}

  lemma NotThere(nodes: Heap, at: Index, links: map<Path, int>, w: Path, j: nat)
    requires Shape(nodes, at, FAN, {}) && Holds(nodes, at, links) && j <= |w| && w[..j] !in at
    ensures w !in links
  {
    if w in links {
      assert Needed(links.Keys, w);
      PrefixIn(at, FAN, w, j);
    }
  }

  /** The heap after a fresh node `a` is hung on branch `d` of `node`. */
  function Grown(nodes: Heap, node: int, d: nat, a: int): Heap
    requires node in nodes && d < |nodes[node].branches|
  {
    nodes[a := Node(node, BLANK, NULL)][node := nodes[node].(branches := nodes[node].branches[d := a])]
  }

  lemma GrowStep(nodes: Heap, at: Index, links: map<Path, int>, w: Path, j: nat, a: int)
    requires Shape(nodes, at, FAN, {}) && Wide(nodes) && LinksAt(nodes, at, links)
    requires j < |w| && w[j] < FAN && w[..j] in at && w[..j + 1] !in at && w[..j + 1] !in links
    requires a !in nodes && a > ROOT
    ensures at[w[..j]] in nodes && |nodes[at[w[..j]]].branches| == FAN
    ensures var nodes', at' := Grown(nodes, at[w[..j]], w[j], a), at[w[..j + 1] := a];
      Shape(nodes', at', FAN, {}) && Wide(nodes') && LinksAt(nodes', at', links)
  {
    hide Shape, LinksAt, Wide;
    var p, d := w[..j], w[j];
    assert w[..j + 1] == p + [d];
    NodeIn(nodes, at, FAN, p);
    WideAt(nodes, at[p]);
    HangShape(nodes, at, FAN, p, d, a, BLANK);
    HangLinks(nodes, at, FAN, p, d, a, BLANK, links);
    assert Grown(nodes, at[p], d, a) == Hung(nodes, at, p, d, a, BLANK);
    WideStays(nodes, a, Node(at[p], BLANK, NULL));
    WideStays(nodes[a := Node(at[p], BLANK, NULL)], at[p], nodes[at[p]].(branches := nodes[at[p]].branches[d := a]));
  }
}
