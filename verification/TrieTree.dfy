/**
 * The trie of common/generic/trie_tree.c: a map from names to links, kept as a
 * tree of nodes whose array of branches exists only while it is in use.
 */
module TrieTree {
  import opened PathTree

  const SIZE: nat := 95
  /** The error pointer for a character without a branch. */
  const FAULT: int := -9

  /** The branch of a character: -1 at the end of the name, -2 for a character
      that has none. */
  function BranchOf(ch: char): int {
    if ch == '\0' then -1 else if ch < ' ' || ch > '~' then -2 else ch as int - ' ' as int
  }

  /** The branches of a name, up to its first character without one. */
  function PathOf(name: string): (p: Path)
    ensures |p| <= |name| && forall i :: 0 <= i < |p| ==> p[i] < SIZE && p[i] == BranchOf(name[i])
    ensures |p| < |name| ==> BranchOf(name[|p|]) < 0
  {
    if name == [] || BranchOf(name[0]) < 0 then [] else [BranchOf(name[0])] + PathOf(name[1..])
  }

  /** Every character of the name has a branch. */
  predicate Printable(name: string) {
    |PathOf(name)| == |name|
  }

  /** A character has a branch exactly when it lies between space and tilde. */
  lemma BranchIff(ch: char)
    ensures BranchOf(ch) >= 0 <==> ' ' <= ch <= '~'
    ensures BranchOf(ch) >= 0 ==> BranchOf(ch) == ch as int - 32 && BranchOf(ch) < SIZE
    ensures BranchOf(ch) == -1 <==> ch == '\0'
  {}

  /** A name is printable exactly when all its characters are. */
  lemma {:induction false} PrintableIff(name: string)
    ensures Printable(name) <==> forall i :: 0 <= i < |name| ==> ' ' <= name[i] <= '~'
  {
    if name != [] {
      BranchIff(name[0]);
      PrintableIff(name[1..]);
      assert forall i :: 0 < i < |name| ==> name[i] == name[1..][i - 1];
    }
  }

  /** No two printable names share a path. */
  lemma PathInjective(a: string, b: string)
    requires Printable(a) && Printable(b) && PathOf(a) == PathOf(b)
    ensures a == b
  {
    forall i | 0 <= i < |a| ensures a[i] == b[i] {
      assert BranchOf(a[i]) == PathOf(a)[i] == BranchOf(b[i]);
    }
  }

  function Nulls(n: nat): (s: seq<int>)
    ensures |s| == n && forall i :: 0 <= i < n ==> s[i] == NULL
  {
    if n == 0 then [] else [NULL] + Nulls(n - 1)
  }

  ghost predicate Sized(nodes: Heap) {
    forall a :: a in nodes ==> nodes[a].branches == [] || |nodes[a].branches| == SIZE
  }

  /** The node of `p` has a branch array exactly when it has a child. */
  ghost predicate ArrayOk(nodes: Heap, at: Index, p: Path) {
    Ptr(at, p) in nodes && (nodes[Ptr(at, p)].branches == [] <==> Leaf(at, p))
  }

  ghost predicate Arrays(nodes: Heap, at: Index) {
    forall p {:trigger ArrayOk(nodes, at, p)} :: p in at ==> ArrayOk(nodes, at, p)
  }

  class Tree {
    var nodes: Heap
    ghost var at: Index
    ghost var links: map<Path, int>

    ghost predicate Valid()
      reads this
    {
      Shape(nodes, at, SIZE, {}) && Sized(nodes) && Arrays(nodes, at) && Holds(nodes, at, links)
    }

    constructor ()
      ensures Valid() && links == map[]
    {
      nodes := map[ROOT := Node(NULL, [], NULL)];
      at := map[[] := ROOT];
      links := map[];
      new;
      EmptyShape();
    }

    /** The node of a name that has a link, or null; an error if the walk meets
        a character without a branch while still in the tree. */
    method FindNode(name: string) returns (node: int)
      requires Valid() && '\0' !in name
      ensures Printable(name) ==> node == if PathOf(name) in links then Ptr(at, PathOf(name)) else NULL
      ensures Printable(name) ==> (node != NULL <==> PathOf(name) in links) && node != FAULT
      ensures !Printable(name) ==> node == if PathOf(name) in at then FAULT else NULL
    {
      hide Shape, Holds, Arrays, PathOf;
      ghost var w := PathOf(name);
      ShapeFacts(nodes, at, links);
      var j := 0;
      node := ROOT;
      assert w[..0] == [];
      while node != NULL
        invariant 0 <= j <= |w| && node == Ptr(at, w[..j])
        decreases |name| - j
      {
        if j == |name| {
          break;
        }
        var offset := BranchOf(name[j]);
        if offset == -2 {
          assert w[..j] == w;
          return FAULT;
        }
        StepDown(nodes, at, SIZE, {}, w, j);
        node := if nodes[node].branches != [] then nodes[node].branches[offset] else NULL;
        j := j + 1;
      }
      if node == NULL {
        if w in at {
          ShapePrefix(nodes, at, SIZE, w, j);
        }
        return NULL;
      }
      assert w[..j] == w;
      return if nodes[node].link != NULL then node else NULL;
    }

    method LookUp(name: string) returns (link: int)
      requires Valid() && '\0' !in name
      ensures link == if Printable(name) && PathOf(name) in links then links[PathOf(name)] else NULL
    {
      ShapeFacts(nodes, at, links);
      var node := FindNode(name);
      return if node == FAULT || node == NULL then NULL else nodes[node].link;
    }

    method AllocateNode(parent: int) returns (a: int)
      requires parent in nodes
      modifies this`nodes
      ensures a !in old(nodes) && a > ROOT
      ensures nodes == old(nodes)[a := Node(parent, [], NULL)]
    {
      FreshAddress(nodes.Keys);
      a :| a !in nodes && a > ROOT;
      nodes := nodes[a := Node(parent, [], NULL)];
    }

    /** Goes down one branch, making the array and the node if missing. */
    method Branch(node: int, offset: nat, ghost w: Path, ghost j: nat) returns (next: int)
      requires Shape(nodes, at, SIZE, {}) && Sized(nodes) && Arrays(nodes, at) && LinksAt(nodes, at, links)
      requires j < |w| && w[..j] in at && node == at[w[..j]] && offset == w[j] && offset < SIZE
      requires w[..j + 1] in links ==> w[..j + 1] in at
      modifies this`nodes, this`at
      ensures Shape(nodes, at, SIZE, {}) && Sized(nodes) && Arrays(nodes, at) && LinksAt(nodes, at, links)
      ensures w[..j + 1] in at && next == at[w[..j + 1]]
      ensures at == if w[..j + 1] in old(at) then old(at) else old(at)[w[..j + 1] := next]
    {
      hide Shape, LinksAt, Sized, Arrays;
      StepDown(nodes, at, SIZE, {}, w, j);
      SizedAt(nodes, node);
      ghost var before := nodes;
      if nodes[node].branches == [] {
        nodes := nodes[node := nodes[node].(branches := Nulls(SIZE))];
      }
      if nodes[node].branches[offset] == NULL {
        NoNull(before, at, SIZE, w[..j + 1]);
        var temp := AllocateNode(node);
        GrowStep(before, at, links, w, j, temp);
        nodes := nodes[node := nodes[node].(branches := nodes[node].branches[offset := temp])];
        at := at[w[..j + 1] := temp];
        assert nodes == Grown(before, node, offset, temp);
      }
      next := nodes[node].branches[offset];
    }

    method Grow(name: string) returns (node: int)
      requires Valid() && Printable(name)
      modifies this`nodes, this`at
      ensures Shape(nodes, at, SIZE, {}) && Sized(nodes) && Arrays(nodes, at) && LinksAt(nodes, at, links)
      ensures node == Ptr(at, PathOf(name)) && node in nodes
      ensures GrownTo(old(at), at, PathOf(name))
    {
      hide Shape, Holds, LinksAt, Sized, Arrays, GrownTo, PathOf;
      ghost var w := PathOf(name);
      node := ROOT;
      assert w[..0] == [];
      ShapeFacts(nodes, at, links);
      HoldsParts(nodes, at, links);
      GrownToNothing(at, w);
      var i := 0;
      while i < |name|
        invariant 0 <= i <= |name| && w[..i] in at && node == at[w[..i]]
        invariant Shape(nodes, at, SIZE, {}) && Sized(nodes) && Arrays(nodes, at) && LinksAt(nodes, at, links)
        invariant GrownTo(old(at), at, w[..i])
      {
        var offset := BranchOf(name[i]);
        ghost var before := at;
        GrownToKeeps(old(at), at, w[..i], w[..i + 1]);
        node := Branch(node, offset, w, i);
        IndexGrows(old(at), before, at, w, i, node);
        i := i + 1;
      }
      assert w[..i] == w;
      NodeIn(nodes, at, SIZE, w);
    }

    /** Adds a link for a name that has none; a second add changes nothing. A
        name with a character that has no branch is refused by the lookup if its
        start, up to that character, lies on the tree. */
    method Add(name: string, link: int)
      requires Valid() && name != [] && '\0' !in name && (Printable(name) || PathOf(name) in at)
      modifies this
      ensures Valid()
      ensures links == if link == NULL || !Printable(name) || PathOf(name) in old(links) then old(links)
                       else old(links)[PathOf(name) := link]
      ensures forall p :: p in old(at) ==> p in at && at[p] == old(at)[p]
    {
      hide Shape, Holds, Sized, Arrays, PathOf;
      if link == NULL {
        return;
      }
      var found := FindNode(name);
      if found != NULL {
        return;
      }
      ghost var w := PathOf(name);
      HoldsParts(nodes, at, links);
      var node := Grow(name);
      LinkHolds(nodes, at, SIZE, old(at), links, w, link);
      SizedAt(nodes, node);
      SizedStays(nodes, node, nodes[node].(link := link));
      RelinkArrays(nodes, at, w, link);
      nodes := nodes[node := nodes[node].(link := link)];
      links := links[w := link];
    }

    /** Clears the branch to `child`; says whether another branch is in use. It
        stops early once it knows. */
    method ClearBranch(node: int, child: int) returns (more: bool)
      requires node in nodes && |nodes[node].branches| == SIZE
      requires child != NULL && Once(nodes[node].branches, child)
      modifies this`nodes
      ensures nodes == Unlinked(old(nodes), node, child)
      ensures more <==> exists i :: 0 <= i < SIZE && nodes[node].branches[i] != NULL
    {
      ghost var was, goal := nodes[node].branches, Unlinked(nodes, node, child)[node].branches;
      var count := 0;
      var i := 0;
      while i < SIZE
        invariant 0 <= i <= SIZE && node in nodes && |nodes[node].branches| == SIZE
        invariant nodes == old(nodes)[node := old(nodes)[node].(branches := nodes[node].branches)]
        invariant forall k :: 0 <= k < i ==> nodes[node].branches[k] == goal[k]
        invariant forall k :: i <= k < SIZE ==> nodes[node].branches[k] == was[k]
        invariant count > 0 <==> exists k :: 0 <= k < i && goal[k] != NULL
      {
        if nodes[node].branches[i] == child {
          nodes := nodes[node := nodes[node].(branches := nodes[node].branches[i := NULL])];
          if count > 0 {
            assert nodes[node].branches == goal;
            return true;
          }
        }
        if nodes[node].branches[i] != NULL {
          count := count + 1;
        }
        i := i + 1;
      }
      assert nodes[node].branches == goal;
      return count > 0;
    }

    /** Clears `child` from `node`, and frees the branch array with its last
        branch; a node left with neither branch nor link is taken out and freed,
        after its own parent has been dealt with. */
    method DelNode(node: int, child: int, ghost p: Path, ghost keys: set<Path>, ghost detached: set<int>)
      requires Sized(nodes) && LinkedAt(nodes, at, keys)
      requires node == NULL ==> Shape(nodes, at, SIZE, detached) && Arrays(nodes, at)
      requires node != NULL ==> p in at && at[p] == node && node in nodes && ArraysBut(nodes, at, p)
      requires node != NULL ==> Shape(Unlinked(nodes, node, child), at, SIZE, detached)
      requires node != NULL ==> if child == NULL then ArrayOk(nodes, at, p)
                                else nodes[node].branches != [] && Once(nodes[node].branches, child)
      modifies this`nodes, this`at
      ensures Shape(nodes, at, SIZE, detached) && Sized(nodes) && Arrays(nodes, at)
      ensures at == if node == NULL then old(at) else Pruned(old(at), keys, p)
      ensures forall q :: q in at ==>
        q in old(at) && at[q] == old(at)[q] && at[q] in nodes && nodes[at[q]].link == old(nodes)[at[q]].link
      decreases if node == NULL then 0 else |p| + 1
    {
      hide Shape, Sized, Arrays, ArraysBut, Leaf;
      if node == NULL {
        return;
      }
      if child == NULL && nodes[node].branches != [] {
        UnlinkNull(nodes, node);
        ArraysAll(nodes, at, p);
        return;
      }
      var kept := Unbranch(node, child, p, keys, detached);
      if kept {
        return;
      }
      if nodes[node].link == NULL {
        RootIff(nodes, at, SIZE, detached, p);
        ghost var detached' := detached;
        if p != [] {
          SizedBound(nodes);
          PruneStep(nodes, at, SIZE, detached, p);
          LinkedAtCut(nodes, at, keys, node, child, p);
          ArraysCut(nodes, at, detached, p);
          at := at - {p};
          detached' := detached + {node};
        }
        DelNode(nodes[node].parent, node, Up(p), keys, detached');
        if node != ROOT {
          FreeDetached(nodes, at, detached', node);
          nodes := nodes - {node};
        }
      }
    }

    /** The first half of `DelNode`: clears the branch and, with the last one,
        the array. */
    method Unbranch(node: int, child: int, ghost p: Path, ghost keys: set<Path>, ghost detached: set<int>)
      returns (kept: bool)
      requires Sized(nodes) && LinkedAt(nodes, at, keys)
      requires p in at && at[p] == node && node in nodes && ArraysBut(nodes, at, p)
      requires Shape(Unlinked(nodes, node, child), at, SIZE, detached)
      requires if child == NULL then ArrayOk(nodes, at, p) && nodes[node].branches == []
               else nodes[node].branches != [] && Once(nodes[node].branches, child)
      modifies this`nodes
      ensures Shape(nodes, at, SIZE, detached) && Sized(nodes) && Arrays(nodes, at) && LinkedAt(nodes, at, keys)
      ensures kept <==> !Leaf(at, p)
      ensures nodes == old(nodes)[node := old(nodes)[node].(branches := nodes[node].branches)]
    {
      hide Shape, Sized, Arrays, ArraysBut, Leaf;
      if nodes[node].branches != [] {
        SizedAt(nodes, node);
        LinkedAtCut(nodes, at, keys, node, child, p);
        SizedStays(nodes, node, Unlinked(nodes, node, child)[node]);
        ghost var was := nodes;
        var more := ClearBranch(node, child);
        LeafIff(nodes, at, SIZE, detached, p);
        if more {
          ArraysAfter(was, nodes, at, detached, p);
          return true;
        }
        NarrowShape(nodes, at, SIZE, detached, p);
        SizedStays(nodes, node, nodes[node].(branches := []));
        nodes := nodes[node := nodes[node].(branches := [])];
        ArraysAfter(was, nodes, at, detached, p);
      } else {
        UnlinkNull(nodes, node);
        ArraysAll(nodes, at, p);
      }
      return false;
    }

    /** Follows the path of a name down from the root. */
    method Walk(name: string) returns (node: int)
      requires Valid() && '\0' !in name
      ensures node == if Printable(name) then Ptr(at, PathOf(name)) else NULL
    {
      hide Shape, Holds, Arrays, PathOf;
      ghost var w := PathOf(name);
      ShapeFacts(nodes, at, links);
      node := ROOT;
      assert w[..0] == [];
      var i := 0;
      while i < |name|
        invariant 0 <= i <= |w| && node == Ptr(at, w[..i])
      {
        if node == NULL {
          if w in at {
            ShapePrefix(nodes, at, SIZE, w, i);
          }
          return NULL;
        }
        if nodes[node].branches == [] {
          if i < |w| && w in at {
            StepDown(nodes, at, SIZE, {}, w, i);
            ShapePrefix(nodes, at, SIZE, w, i + 1);
          }
          return NULL;
        }
        var offset := BranchOf(name[i]);
        if offset == -2 {
          return NULL;
        }
        StepDown(nodes, at, SIZE, {}, w, i);
        node := nodes[node].branches[offset];
        i := i + 1;
      }
      assert w[..i] == w;
    }

    /** Removes the link of a name, and with it exactly the nodes and arrays
        that no other name needs; the nodes that stay do not move. */
    method Del(name: string)
      requires Valid() && name != [] && '\0' !in name
      modifies this
      ensures Valid()
      ensures links == if Printable(name) then old(links) - {PathOf(name)} else old(links)
      ensures forall p :: p in at ==> p in old(at) && at[p] == old(at)[p]
    {
      hide Shape, Holds, Sized, Arrays, PathOf;
      var node := Walk(name);
      if Printable(name) {
        NotLinked(nodes, at, SIZE, links, PathOf(name));
      }
      if node == NULL || nodes[node].link == NULL || node == ROOT {
        return;
      }
      Remove(node, PathOf(name));
    }

    /** Adding a name that is not there and deleting it again restores the
        links and the nodes, each at its own address. */
    method AddThenDel(name: string, link: int)
      requires Valid() && name != [] && Printable(name) && '\0' !in name
      requires link != NULL && PathOf(name) !in links
      modifies this
      ensures Valid() && links == old(links) && at == old(at)
    {
      hide Shape, Sized, Arrays, Holds, PathOf;
      ghost var was, before, held := nodes, at, links;
      Add(name, link);
      ghost var between := at;
      Del(name);
      assert links == held;
      KeysDetermineNodes(was, before, held, nodes, at, links);
      assert at == before by {
        assert forall p :: p in before ==> p in between && between[p] == before[p];
        assert forall p :: p in at ==> p in between && at[p] == between[p];
      }
    }

    method Remove(node: int, ghost w: Path)
      requires Valid() && w in at && node == at[w] && node in nodes && nodes[node].link != NULL
      modifies this
      ensures Valid() && links == old(links) - {w}
      ensures forall p :: p in at ==> p in old(at) && at[p] == old(at)[p]
    {
      hide Shape, Holds, Sized, Arrays, LinkedAt, Pruned;
      ClearLink(nodes, at, SIZE, links, w);
      SizedAt(nodes, node);
      SizedStays(nodes, node, nodes[node].(link := NULL));
      RelinkArrays(nodes, at, w, NULL);
      nodes := nodes[node := nodes[node].(link := NULL)];
      UnlinkNull(nodes, node);
      ArraysParts(nodes, at, w);
      DelNode(node, NULL, w, links.Keys - {w}, {});
      PrunedHolds(old(nodes), old(at), links, w, nodes, at);
      links := links - {w};
    }
  }

  // ------------------------------------- names that leave the branch array

  /** Where the lookup of a name ends: off the tree, at a character without a
      branch, or at a node. */
  datatype Seek = Lost | Faulty | There(path: Path)

  function Sought(at: Index, p: Path, rest: string): Seek
    decreases |rest|
  {
    if p !in at then Lost
    else if rest == [] then There(p)
    else if BranchOf(rest[0]) < 0 then Faulty
    else Sought(at, p + [BranchOf(rest[0])], rest[1..])
  }

  /** What adding does: nothing, store the link, or use a branch number below 0
      as an index, at a position of the name. */
  datatype Fate = Unchanged | Stored | Outside(position: nat)

  function Looped(rest: string, position: nat): Fate {
    if rest == [] then Stored
    else if BranchOf(rest[0]) < 0 then Outside(position)
    else Looped(rest[1..], position + 1)
  }

  function Adding(at: Index, links: map<Path, int>, name: string, link: int): Fate {
    if link == NULL then Unchanged
    else match Sought(at, [], name)
      case Faulty => Unchanged
      case There(p) => if p in links then Unchanged else Looped(name, 0)
      case Lost => Looped(name, 0)
  }

  lemma PathOfStep(rest: string)
    ensures rest == [] ==> PathOf(rest) == [] && Printable(rest)
    ensures rest != [] && BranchOf(rest[0]) < 0 ==> PathOf(rest) == [] && !Printable(rest)
    ensures rest != [] && BranchOf(rest[0]) >= 0 ==>
      PathOf(rest) == [BranchOf(rest[0])] + PathOf(rest[1..]) && (Printable(rest) <==> Printable(rest[1..]))
  {}

  lemma {:induction false} SoughtIs(at: Index, p: Path, rest: string)
    requires Paths(at, SIZE)
    ensures Sought(at, p, rest) ==
      if p + PathOf(rest) !in at then Lost
      else if Printable(rest) then There(p + PathOf(rest)) else Faulty
    decreases |rest|
  {
    hide Paths, PathOf, Printable;
    var w := PathOf(rest);
    PathOfStep(rest);
    if p + w in at {
      PrefixIn(at, SIZE, p + w, |p|);
      assert (p + w)[..|p|] == p;
    }
    if rest == [] || BranchOf(rest[0]) < 0 {
      assert p + w == p;
    } else {
      SoughtIs(at, p + [BranchOf(rest[0])], rest[1..]);
      assert p + [BranchOf(rest[0])] + PathOf(rest[1..]) == p + w;
    }
  }

  lemma {:induction false} LoopedIs(rest: string, position: nat)
    ensures Looped(rest, position) == if Printable(rest) then Stored else Outside(position + |PathOf(rest)|)
  {
    if rest != [] && BranchOf(rest[0]) >= 0 {
      LoopedIs(rest[1..], position + 1);
    }
  }

  /** Adding a name leaves the branch array if and only if the name has a character
      without a branch and its start, up to that character, is not on the tree; it
      then does so at that character. It stores the link if and only if the name is
      printable and has none. */
  lemma AddingIff(at: Index, links: map<Path, int>, name: string, link: int)
    requires Paths(at, SIZE) && forall w :: w in links ==> w in at
    ensures Adding(at, links, name, link).Outside? <==> link != NULL && !Printable(name) && PathOf(name) !in at
    ensures Adding(at, links, name, link).Outside? ==> Adding(at, links, name, link).position == |PathOf(name)|
    ensures Adding(at, links, name, link).Stored? <==> link != NULL && Printable(name) && PathOf(name) !in links
  {
    hide Paths, PathOf, Printable, Sought, Looped;
    SoughtIs(at, [], name);
    LoopedIs(name, 0);
    assert [] + PathOf(name) == PathOf(name);
  }

  ghost predicate ArraysBut(nodes: Heap, at: Index, p: Path) {
    forall q {:trigger ArrayOk(nodes, at, q)} :: q in at && q != p ==> ArrayOk(nodes, at, q)
  }

  lemma ArraysParts(nodes: Heap, at: Index, p: Path)
    requires Arrays(nodes, at) && p in at
    ensures ArraysBut(nodes, at, p) && ArrayOk(nodes, at, p)
  {
    assert ArrayOk(nodes, at, p);
    forall q | q in at ensures ArrayOk(nodes, at, q) {}
  }

  lemma ArraysAll(nodes: Heap, at: Index, p: Path)
    requires ArraysBut(nodes, at, p) && ArrayOk(nodes, at, p)
    ensures Arrays(nodes, at)
  {
    forall q | q in at ensures ArrayOk(nodes, at, q) {}
  }

  /** Only the node of `p` changed, and it is as it should be. */
  lemma ArraysAfter(was: Heap, nodes: Heap, at: Index, detached: set<int>, p: Path)
    requires Shape(nodes, at, SIZE, detached) && p in at && at[p] in nodes && at[p] in was
    requires ArraysBut(was, at, p)
    requires nodes == was[at[p] := was[at[p]].(branches := nodes[at[p]].branches)]
    requires nodes[at[p]].branches == [] <==> Leaf(at, p)
    ensures Arrays(nodes, at)
  {
    forall q | q in at ensures ArrayOk(nodes, at, q) {
      if q != p {
        assert ArrayOk(was, at, q);
        assert at[q] != at[p];
      }
    }
  }

  lemma ArraysCut(nodes: Heap, at: Index, detached: set<int>, p: Path)
    requires Shape(nodes, at, SIZE, detached) && Arrays(nodes, at) && p in at && p != [] && Up(p) in at
    ensures ArraysBut(nodes, at - {p}, Up(p))
    ensures at[Up(p)] in nodes && nodes[at[Up(p)]].branches != []
  {
    var at' := at - {p};
    forall q | q in at' && q != Up(p) ensures ArrayOk(nodes, at', q) {
      LeafAfterCut(at, p, q);
      assert ArrayOk(nodes, at, q);
    }
    assert ArrayOk(nodes, at, Up(p));
    assert p == Up(p) + [p[|p| - 1]];
  }

  lemma SizedBound(nodes: Heap)
    requires Sized(nodes)
    ensures forall a :: a in nodes ==> |nodes[a].branches| <= SIZE
  {}

  lemma FreeDetached(nodes: Heap, at: Index, detached: set<int>, a: int)
    requires Shape(nodes, at, SIZE, detached) && Sized(nodes) && Arrays(nodes, at) && a in detached
    ensures Shape(nodes - {a}, at, SIZE, detached - {a}) && Sized(nodes - {a}) && Arrays(nodes - {a}, at)
    ensures a in nodes && forall q :: q in at ==> at[q] != a
  {
    FreeShape(nodes, at, SIZE, detached, a);
    forall q | q in at ensures ArrayOk(nodes - {a}, at, q) {
      assert ArrayOk(nodes, at, q);
    }
  }

  lemma HoldsParts(nodes: Heap, at: Index, links: map<Path, int>)
    requires Holds(nodes, at, links)
    ensures Keyed(links) && Exact(at, links.Keys) && LinksAt(nodes, at, links)
  {}

  lemma SizedAt(nodes: Heap, a: int)
    requires Sized(nodes) && a in nodes
    ensures nodes[a].branches == [] || |nodes[a].branches| == SIZE
  {}

  lemma SizedStays(nodes: Heap, a: int, nd: Node)
    requires Sized(nodes) && (nd.branches == [] || |nd.branches| == SIZE)
    ensures Sized(nodes[a := nd])
  {}

  lemma RelinkArrays(nodes: Heap, at: Index, w: Path, link: int)
    requires Arrays(nodes, at) && w in at && at[w] in nodes
    ensures Arrays(nodes[at[w] := nodes[at[w]].(link := link)], at)
  {
    var r := nodes[at[w] := nodes[at[w]].(link := link)];
    forall p | p in at ensures ArrayOk(r, at, p) {
      assert ArrayOk(nodes, at, p);
    }
  }

  /** The heap after a fresh node `a` is hung on branch `d` of `node`. */
  function Grown(nodes: Heap, node: int, d: nat, a: int): Heap
    requires node in nodes && (nodes[node].branches == [] || |nodes[node].branches| == SIZE) && d < SIZE
  {
    var b := if nodes[node].branches == [] then Nulls(SIZE) else nodes[node].branches;
    nodes[a := Node(node, [], NULL)][node := nodes[node].(branches := b[d := a])]
  }

  lemma GrowStep(nodes: Heap, at: Index, links: map<Path, int>, w: Path, j: nat, a: int)
    requires Shape(nodes, at, SIZE, {}) && Sized(nodes) && Arrays(nodes, at) && LinksAt(nodes, at, links)
    requires j < |w| && w[j] < SIZE && w[..j] in at && w[..j + 1] !in at && w[..j + 1] !in links
    requires a !in nodes && a > ROOT
    ensures at[w[..j]] in nodes
    ensures nodes[at[w[..j]]].branches == [] || |nodes[at[w[..j]]].branches| == SIZE
    ensures var nodes', at' := Grown(nodes, at[w[..j]], w[j], a), at[w[..j + 1] := a];
      Shape(nodes', at', SIZE, {}) && Sized(nodes') && Arrays(nodes', at') && LinksAt(nodes', at', links)
  {
    hide Shape, LinksAt, Arrays;
    var p, d := w[..j], w[j];
    assert w[..j + 1] == p + [d];
    NodeIn(nodes, at, SIZE, p);
    SizedAt(nodes, at[p]);
    var wide := nodes;
    if nodes[at[p]].branches == [] {
      WidenShape(nodes, at, SIZE, p, Nulls(SIZE));
      wide := nodes[at[p] := nodes[at[p]].(branches := Nulls(SIZE))];
      WidenLinks(nodes, at, links, at[p], Nulls(SIZE));
    }
    HangShape(wide, at, SIZE, p, d, a, []);
    HangLinks(wide, at, SIZE, p, d, a, [], links);
    assert Grown(nodes, at[p], d, a) == Hung(wide, at, p, d, a, []);
    GrowArrays(nodes, at, p, d, a);
  }

  lemma WidenLinks(nodes: Heap, at: Index, links: map<Path, int>, node: int, b: seq<int>)
    requires LinksAt(nodes, at, links) && node in nodes
    ensures LinksAt(nodes[node := nodes[node].(branches := b)], at, links)
  {}

  lemma GrowArrays(nodes: Heap, at: Index, p: Path, d: nat, a: int)
    requires Shape(nodes, at, SIZE, {}) && Sized(nodes) && Arrays(nodes, at)
    requires p in at && at[p] in nodes && d < SIZE && p + [d] !in at && a !in nodes && a > ROOT
    ensures nodes[at[p]].branches == [] || |nodes[at[p]].branches| == SIZE
    ensures Arrays(Grown(nodes, at[p], d, a), at[p + [d] := a])
  {
    var r, at' := Grown(nodes, at[p], d, a), at[p + [d] := a];
    forall q | q in at' ensures ArrayOk(r, at', q) {
      LeafAfterHang(at, SIZE, p, d, a, q);
      if q != p + [d] {
        assert ArrayOk(nodes, at, q);
        InTree(nodes, at, SIZE, {}, q);
        assert at[q] == at[p] ==> q == p;
      } else {
        assert p != p + [d];
      }
    }
  }

  lemma EmptyShape()
    ensures Shape(map[ROOT := Node(NULL, [], NULL)], map[[] := ROOT], SIZE, {})
    ensures Sized(map[ROOT := Node(NULL, [], NULL)]) && Arrays(map[ROOT := Node(NULL, [], NULL)], map[[] := ROOT])
    ensures Holds(map[ROOT := Node(NULL, [], NULL)], map[[] := ROOT], map[])
  {
    var nodes, at: Index := map[ROOT := Node(NULL, [], NULL)], map[[] := ROOT];
    assert at[[]] == ROOT;
    assert NodeAt(nodes, at, SIZE, []);
  }

  lemma ShapeFacts(nodes: Heap, at: Index, links: map<Path, int>)
    requires Shape(nodes, at, SIZE, {}) && Holds(nodes, at, links)
    ensures forall p :: p in at ==> at[p] in nodes && at[p] > NULL
    ensures [] in at && at[[]] == ROOT
    ensures forall p :: p in at ==> nodes[at[p]].link == if p in links then links[p] else NULL
    ensures forall p :: p in links ==> p in at && links[p] != NULL
  {
    forall p | p in links ensures p in at {
      assert Needed(links.Keys, p);
    }
  }
}
