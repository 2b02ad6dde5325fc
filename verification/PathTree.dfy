/**
 * Trees of linked nodes addressed by paths, as the radix tree and the trie of
 * common/generic build them. The nodes are a heap of records that refer to each
 * other by address; an index, kept for the proofs, says which path each node
 * stands for.
 */
module PathTree {

  type Path = seq<nat>

  const NULL: int := 0
  const ROOT: int := 1

  datatype Node = Node(parent: int, branches: seq<int>, link: int)

  type Heap = map<int, Node>
  type Index = map<Path, int>

  function Child(nd: Node, d: nat): int {
    if d < |nd.branches| then nd.branches[d] else NULL
  }

  function Ptr(at: Index, p: Path): int {
    if p in at then at[p] else NULL
  }

  function Up(p: Path): Path {
    if p == [] then [] else p[..|p| - 1]
  }

  /** The node of path `p` points at the nodes of the paths one digit longer,
      and back at the node of the path one digit shorter. */
  ghost predicate NodeAt(nodes: Heap, at: Index, fan: nat, p: Path) {
    && Ptr(at, p) in nodes
    && (forall d :: 0 <= d < fan ==> Child(nodes[Ptr(at, p)], d) == Ptr(at, p + [d]))
    && nodes[Ptr(at, p)].parent == (if p == [] then NULL else Ptr(at, Up(p)))
  }

  /** The paths in the tree are closed under taking prefixes, have digits below
      `fan`, and stand for distinct nodes. */
  ghost predicate Paths(at: Index, fan: nat) {
    && [] in at && at[[]] == ROOT
    && (forall p: Path, d: nat {:trigger p + [d] in at} :: p + [d] in at ==> p in at && d < fan)
    && (forall p, q :: p in at && q in at && at[p] == at[q] ==> p == q)
    && (forall p :: p in at ==> at[p] > NULL)
  }

  /** The heap is the tree of `at`, plus detached nodes waiting to be freed. */
  ghost predicate Shape(nodes: Heap, at: Index, fan: nat, detached: set<int>) {
    && Paths(at, fan)
    && (forall p {:trigger NodeAt(nodes, at, fan, p)} :: p in at ==> NodeAt(nodes, at, fan, p))
    && (forall p :: p in at ==> at[p] !in detached)
    && nodes.Keys == at.Values + detached
  }

  // --------------------------------------------------------------- walking

  lemma {:induction false} PrefixIn(at: Index, fan: nat, w: Path, k: nat)
    requires Paths(at, fan) && w in at && k <= |w|
    ensures w[..k] in at
    decreases |w| - k
  {
    if k < |w| {
      PrefixIn(at, fan, w, k + 1);
      assert w[..k + 1] == w[..k] + [w[k]];
    } else {
      assert w[..k] == w;
    }
  }

  lemma ShapePrefix(nodes: Heap, at: Index, fan: nat, w: Path, j: nat)
    requires Shape(nodes, at, fan, {}) && w in at && j <= |w|
    ensures w[..j] in at && at[w[..j]] != NULL
  {
    PrefixIn(at, fan, w, j);
  }

  /** Following one branch follows one digit. */
  lemma StepDown(nodes: Heap, at: Index, fan: nat, detached: set<int>, w: Path, j: nat)
    requires Shape(nodes, at, fan, detached) && j < |w| && w[j] < fan && w[..j] in at
    ensures at[w[..j]] in nodes && Child(nodes[at[w[..j]]], w[j]) == Ptr(at, w[..j + 1])
  {
    assert NodeAt(nodes, at, fan, w[..j]);
    assert w[..j + 1] == w[..j] + [w[j]];
  }

  // --------------------------------------------------------------- changes

  /** A fresh node `a` hung on branch `d` of the node of `p`. */
  function Hung(nodes: Heap, at: Index, p: Path, d: nat, a: int, blank: seq<int>): (r: Heap)
    requires p in at && at[p] in nodes && d < |nodes[at[p]].branches|
  {
    nodes[at[p] := nodes[at[p]].(branches := nodes[at[p]].branches[d := a])][a := Node(at[p], blank, NULL)]
  }

  lemma HangPaths(at: Index, fan: nat, p: Path, d: nat, a: int)
    requires Paths(at, fan) && p in at && d < fan && p + [d] !in at
    requires a > NULL && forall q :: q in at ==> at[q] != a
    ensures Paths(at[p + [d] := a], fan)
  {
    var at' := at[p + [d] := a];
    forall q: Path, e: nat {:trigger q + [e] in at'} | q + [e] in at' ensures q in at' && e < fan {
      if q + [e] == p + [d] {
        assert q == (q + [e])[..|q|] && e == (q + [e])[|q|];
      } else {
        assert q + [e] in at;
      }
    }
  }

  ghost predicate CanHang(nodes: Heap, at: Index, fan: nat, p: Path, d: nat, a: int) {
    && Shape(nodes, at, fan, {})
    && p in at && d < fan && p + [d] !in at && at[p] in nodes
    && d < |nodes[at[p]].branches|
    && a !in nodes && a > NULL
  }

  /** Paths of equal last digit and equal stem are equal. */
  lemma SnocInjective(p: Path, d: nat, q: Path, e: nat)
    requires p + [d] == q + [e]
    ensures p == q && d == e
  {
    assert p == (p + [d])[..|p|] && d == (p + [d])[|p|];
  }

  lemma HangNew(nodes: Heap, at: Index, fan: nat, p: Path, d: nat, a: int, blank: seq<int>)
    requires CanHang(nodes, at, fan, p, d, a)
    requires forall i :: 0 <= i < |blank| ==> blank[i] == NULL
    ensures NodeAt(Hung(nodes, at, p, d, a, blank), at[p + [d] := a], fan, p + [d])
  {
    var w, at' := p + [d], at[p + [d] := a];
    forall e | 0 <= e < fan ensures Ptr(at', w + [e]) == NULL {
      assert w + [e] !in at;
      assert |w + [e]| != |w|;
    }
    assert Up(w) == p;
    assert p != w;
  }

  lemma HangOld(nodes: Heap, at: Index, fan: nat, p: Path, d: nat, a: int, blank: seq<int>, q: Path)
    requires CanHang(nodes, at, fan, p, d, a) && q in at
    ensures NodeAt(Hung(nodes, at, p, d, a, blank), at[p + [d] := a], fan, q)
  {
    var w, at', r := p + [d], at[p + [d] := a], Hung(nodes, at, p, d, a, blank);
    assert NodeAt(nodes, at, fan, q);
    assert q == p <==> at[q] == at[p];
    assert at[q] != a;
    forall e | 0 <= e < fan ensures Child(r[at'[q]], e) == Ptr(at', q + [e]) {
      if q + [e] == w {
        SnocInjective(q, e, p, d);
      }
    }
    if q != [] {
      assert q == Up(q) + [q[|q| - 1]];
      assert Up(q) in at;
    }
  }

  lemma ValuesGrow(at: Index, w: Path, a: int)
    requires w !in at
    ensures at[w := a].Values == at.Values + {a}
  {
    var at' := at[w := a];
    forall v | v in at.Values ensures v in at'.Values {
      var q :| q in at && at[q] == v;
      assert at'[q] == v;
    }
    assert at'[w] == a;
  }

  /** Hanging a fresh node keeps the shape. */
  lemma HangShape(nodes: Heap, at: Index, fan: nat, p: Path, d: nat, a: int, blank: seq<int>)
    requires CanHang(nodes, at, fan, p, d, a)
    requires forall i :: 0 <= i < |blank| ==> blank[i] == NULL
    ensures Shape(Hung(nodes, at, p, d, a, blank), at[p + [d] := a], fan, {})
  {
    hide NodeAt, Shape, Paths, CanHang;
    HangParts(nodes, at, fan, p, d, a);
    var w, at', r := p + [d], at[p + [d] := a], Hung(nodes, at, p, d, a, blank);
    HangPaths(at, fan, p, d, a);
    ValuesGrow(at, w, a);
    HangNew(nodes, at, fan, p, d, a, blank);
    forall q | q in at ensures NodeAt(r, at', fan, q) {
      HangOld(nodes, at, fan, p, d, a, blank, q);
    }
    assert r.Keys == nodes.Keys + {a};
    ShapeIs(r, at', fan);
  }

  lemma HangParts(nodes: Heap, at: Index, fan: nat, p: Path, d: nat, a: int)
    requires CanHang(nodes, at, fan, p, d, a)
    ensures Paths(at, fan) && (forall q :: q in at ==> at[q] in nodes) && nodes.Keys == at.Values
    ensures p in at && d < fan && p + [d] !in at && at[p] in nodes && d < |nodes[at[p]].branches|
    ensures a !in nodes && a > NULL && forall q :: q in at ==> at[q] != a
  {
    forall q | q in at ensures at[q] in nodes {
      assert NodeAt(nodes, at, fan, q);
    }
  }

  lemma ShapeIs(nodes: Heap, at: Index, fan: nat)
    requires Paths(at, fan) && nodes.Keys == at.Values
    requires forall q :: q in at ==> NodeAt(nodes, at, fan, q)
    ensures Shape(nodes, at, fan, {})
  {}

  // -------------------------------------------------------------- removal

  /** Branch `d` of the node of `p` cleared. */
  function Cut(nodes: Heap, at: Index, p: Path, d: nat): (r: Heap)
    requires p in at && at[p] in nodes && d < |nodes[at[p]].branches|
  {
    nodes[at[p] := nodes[at[p]].(branches := nodes[at[p]].branches[d := NULL])]
  }

  /** No path of the tree extends `w` by a digit. */
  ghost predicate Leaf(at: Index, w: Path) {
    forall q: Path, e: nat {:trigger q + [e] in at} :: q + [e] in at ==> q != w
  }

  ghost predicate CanCut(nodes: Heap, at: Index, fan: nat, detached: set<int>, p: Path, d: nat) {
    && Shape(nodes, at, fan, detached)
    && p in at && at[p] in nodes && d < |nodes[at[p]].branches|
    && p + [d] in at && Leaf(at, p + [d])
  }

  lemma CutPaths(at: Index, fan: nat, w: Path)
    requires Paths(at, fan) && w in at && w != [] && Leaf(at, w)
    ensures Paths(at - {w}, fan)
  {
    var at' := at - {w};
    forall q: Path, e: nat {:trigger q + [e] in at'} | q + [e] in at' ensures q in at' && e < fan {
      assert q + [e] in at;
      assert Leaf(at, w) ==> q != w;
    }
  }

  lemma CutNode(nodes: Heap, at: Index, fan: nat, detached: set<int>, p: Path, d: nat, q: Path)
    requires CanCut(nodes, at, fan, detached, p, d) && q in at && q != p + [d]
    ensures NodeAt(Cut(nodes, at, p, d), at - {p + [d]}, fan, q)
  {
    var w, at', r := p + [d], at - {p + [d]}, Cut(nodes, at, p, d);
    assert NodeAt(nodes, at, fan, q);
    assert q == p <==> at[q] == at[p];
    forall e | 0 <= e < fan ensures Child(r[at[q]], e) == Ptr(at', q + [e]) {
      if q + [e] == w {
        SnocInjective(q, e, p, d);
      } else if q == p {
        assert e != d;
      }
    }
    if q != [] {
      assert q == Up(q) + [q[|q| - 1]];
      assert Up(q) in at && Up(q) != w;
    }
  }

  lemma ValuesShrink(at: Index, w: Path)
    requires w in at && forall p, q :: p in at && q in at && at[p] == at[q] ==> p == q
    ensures (at - {w}).Values == at.Values - {at[w]}
  {
    var at' := at - {w};
    forall v | v in at.Values && v != at[w] ensures v in at'.Values {
      var q :| q in at && at[q] == v;
      assert at'[q] == v;
    }
  }

  /** Cutting a leaf keeps the shape of the rest; the leaf is detached. */
  lemma CutShape(nodes: Heap, at: Index, fan: nat, detached: set<int>, p: Path, d: nat)
    requires CanCut(nodes, at, fan, detached, p, d)
    ensures Shape(Cut(nodes, at, p, d), at - {p + [d]}, fan, detached + {at[p + [d]]})
  {
    var w, at', r := p + [d], at - {p + [d]}, Cut(nodes, at, p, d);
    CutPaths(at, fan, w);
    ValuesShrink(at, w);
    forall q | q in at' ensures NodeAt(r, at', fan, q) {
      CutNode(nodes, at, fan, detached, p, d, q);
    }
    hide NodeAt;
    assert r.Keys == nodes.Keys;
    assert at[w] in at.Values;
  }

  /** Freeing a detached node keeps the shape. */
  lemma FreeShape(nodes: Heap, at: Index, fan: nat, detached: set<int>, a: int)
    requires Shape(nodes, at, fan, detached) && a in detached
    ensures Shape(nodes - {a}, at, fan, detached - {a})
  {
    var r := nodes - {a};
    forall q | q in at ensures NodeAt(r, at, fan, q) {
      assert NodeAt(nodes, at, fan, q);
    }
    assert a !in at.Values;
  }

  /** The heap with `child` cleared from the branches of `node`. */
  function Unlinked(nodes: Heap, node: int, child: int): (r: Heap)
    requires node in nodes
  {
    var b := nodes[node].branches;
    nodes[node := nodes[node].(branches := seq(|b|, i requires 0 <= i < |b| => if b[i] == child then NULL else b[i]))]
  }

  /** `x` occurs at one place of `s` at most. */
  ghost predicate Once(s: seq<int>, x: int) {
    forall i, j :: 0 <= i < |s| && 0 <= j < |s| && s[i] == x && s[j] == x ==> i == j
  }

  lemma UnlinkedIsCut(nodes: Heap, at: Index, fan: nat, detached: set<int>, p: Path, d: nat)
    requires Shape(nodes, at, fan, detached) && p in at && p + [d] in at
    requires at[p] in nodes && d < |nodes[at[p]].branches| <= fan
    ensures Unlinked(nodes, at[p], at[p + [d]]) == Cut(nodes, at, p, d)
    ensures Once(nodes[at[p]].branches, at[p + [d]])
  {
    var b := nodes[at[p]].branches;
    assert NodeAt(nodes, at, fan, p);
    forall e | 0 <= e < |b| ensures b[e] == at[p + [d]] <==> e == d {
      assert Child(nodes[at[p]], e) == Ptr(at, p + [e]);
      if b[e] == at[p + [d]] {
        assert p + [e] == p + [d];
        SnocInjective(p, e, p, d);
      }
    }
    assert seq(|b|, i requires 0 <= i < |b| => if b[i] == at[p + [d]] then NULL else b[i]) == b[d := NULL];
  }

  lemma UnlinkNull(nodes: Heap, node: int)
    requires node in nodes
    ensures Unlinked(nodes, node, NULL) == nodes
  {
    var b := nodes[node].branches;
    assert seq(|b|, i requires 0 <= i < |b| => if b[i] == NULL then NULL else b[i]) == b;
  }

  // --------------------------------------------------------------- pruning

  /** Some key's path runs through `p`. */
  ghost predicate Needed(keys: set<Path>, p: Path) {
    p == [] || exists w :: w in keys && p <= w
  }

  /** The tree has exactly the nodes that its keys need. */
  ghost predicate Exact(at: Index, keys: set<Path>) {
    forall p :: p in at <==> Needed(keys, p)
  }

  /** The index after pruning upward from `p`: nodes without a link and without
      children go, up to the first that has either. */
  ghost function Pruned(at: Index, keys: set<Path>, p: Path): Index
    decreases |p|
  {
    if p == [] || p in keys || !Leaf(at, p) then at
    else Pruned(at - {p}, keys, Up(p))
  }

  /** Pruning upward from the end of a path that was needed only for itself
      leaves exactly the nodes the other keys need. */
  lemma {:induction false} PrunedExact(at: Index, keys: set<Path>, w: Path)
    requires forall p :: p in at <==> Needed(keys, p) || p <= w
    ensures Exact(Pruned(at, keys, w), keys)
    decreases |w|
  {
    if w == [] || w in keys || !Leaf(at, w) {
      assert Needed(keys, w) by {
        if w != [] && w !in keys {
          var q, e :| q + [e] in at && q == w;
          assert Needed(keys, w + [e]);
          var k :| k in keys && w + [e] <= k;
          assert w <= k;
        }
      }
      forall p | p <= w ensures Needed(keys, p) {
        PrefixNeeded(keys, p, w);
      }
    } else {
      assert !Needed(keys, w) by {
        if Needed(keys, w) {
          var k :| k in keys && w <= k;
          assert k != w;
          assert w + [k[|w|]] <= k;
          assert Needed(keys, w + [k[|w|]]);
        }
      }
      forall p ensures p in at - {w} <==> Needed(keys, p) || p <= Up(w) {
        assert p <= w && p != w <==> p <= Up(w);
      }
      PrunedExact(at - {w}, keys, Up(w));
    }
  }

  lemma PrefixNeeded(keys: set<Path>, p: Path, w: Path)
    requires Needed(keys, w) && p <= w
    ensures Needed(keys, p)
  {
    if w != [] {
      var k :| k in keys && w <= k;
      assert p <= k;
    }
  }

  // ------------------------------------------------------------- contents

  /** The tree holds the links of `links`, at the nodes of their paths, and no
      node that they do not need. */
  ghost predicate Holds(nodes: Heap, at: Index, links: map<Path, int>) {
    && Keyed(links)
    && LinksAt(nodes, at, links)
    && Exact(at, links.Keys)
  }

  ghost predicate LinksAt(nodes: Heap, at: Index, links: map<Path, int>) {
    forall p :: p in at ==> at[p] in nodes && nodes[at[p]].link == (if p in links then links[p] else NULL)
  }

  /** Every node but the root that has no children carries a link. */
  lemma LeavesCarryLinks(nodes: Heap, at: Index, links: map<Path, int>, p: Path)
    requires Holds(nodes, at, links) && p in at && p != [] && Leaf(at, p)
    ensures nodes[at[p]].link != NULL
  {
    var w :| w in links.Keys && p <= w;
    if w != p {
      assert p + [w[|p|]] <= w;
      assert Needed(links.Keys, p + [w[|p|]]);
    }
  }

  lemma HangLinks(nodes: Heap, at: Index, fan: nat, p: Path, d: nat, a: int, blank: seq<int>, links: map<Path, int>)
    requires CanHang(nodes, at, fan, p, d, a) && LinksAt(nodes, at, links) && p + [d] !in links
    ensures LinksAt(Hung(nodes, at, p, d, a, blank), at[p + [d] := a], links)
  {
    assert forall q :: q in at ==> at[q] != a;
  }

  ghost predicate Keyed(links: map<Path, int>) {
    forall w :: w in links ==> w != [] && links[w] != NULL
  }

  /** The tree grown along `w`, with a link set at its end, holds one more
      link. */
  lemma LinkHolds(nodes: Heap, at: Index, fan: nat, at0: Index, links: map<Path, int>, w: Path, link: int)
    requires Shape(nodes, at, fan, {}) && LinksAt(nodes, at, links) && Keyed(links)
    requires Exact(at0, links.Keys) && forall p :: p in at <==> p in at0 || p <= w
    requires w != [] && link != NULL
    ensures w in at && at[w] in nodes
    ensures var nodes' := nodes[at[w] := nodes[at[w]].(link := link)];
      Shape(nodes', at, fan, {}) && Holds(nodes', at, links[w := link])
  {
    hide Shape, Exact, LinksAt;
    assert w in at;
    InTree(nodes, at, fan, {}, w);
    ExactGrows(at0, at, links.Keys, w);
    RelinkShape(nodes, at, fan, {}, w, link);
    RelinkLinks(nodes, at, fan, links, w, link);
    assert links[w := link].Keys == links.Keys + {w};
  }

  lemma InTree(nodes: Heap, at: Index, fan: nat, detached: set<int>, p: Path)
    requires Shape(nodes, at, fan, detached) && p in at
    ensures at[p] in nodes
  {}

  lemma ExactGrows(at0: Index, at: Index, keys: set<Path>, w: Path)
    requires Exact(at0, keys) && forall p :: p in at <==> p in at0 || p <= w
    ensures Exact(at, keys + {w})
  {
    forall p ensures p in at <==> Needed(keys + {w}, p) {
      if p in at0 && p != [] {
        var k :| k in keys && p <= k;
        assert k in keys + {w};
      }
      if p <= w {
        assert w in keys + {w};
      }
      if Needed(keys + {w}, p) && p != [] {
        var k :| k in keys + {w} && p <= k;
        assert k == w || Needed(keys, p);
      }
    }
  }

  /** Setting or clearing a link does not change the shape. */
  lemma RelinkShape(nodes: Heap, at: Index, fan: nat, detached: set<int>, w: Path, link: int)
    requires Shape(nodes, at, fan, detached) && w in at && at[w] in nodes
    ensures Shape(nodes[at[w] := nodes[at[w]].(link := link)], at, fan, detached)
  {
    var nodes' := nodes[at[w] := nodes[at[w]].(link := link)];
    forall p | p in at ensures NodeAt(nodes', at, fan, p) {
      assert NodeAt(nodes, at, fan, p);
    }
  }

  lemma RelinkLinks(nodes: Heap, at: Index, fan: nat, links: map<Path, int>, w: Path, link: int)
    requires Shape(nodes, at, fan, {}) && LinksAt(nodes, at, links) && w in at && at[w] in nodes
    ensures LinksAt(nodes[at[w] := nodes[at[w]].(link := link)], at, links[w := link])
  {}

  // ------------------------------------------------------------- deletion

  /** Links sit at the nodes of `keys` and nowhere else. */
  ghost predicate LinkedAt(nodes: Heap, at: Index, keys: set<Path>) {
    forall q :: q in at ==> at[q] in nodes && (nodes[at[q]].link != NULL <==> q in keys)
  }

  /** A node with a branch in use is not a leaf; one without is. */
  lemma LeafIff(nodes: Heap, at: Index, fan: nat, detached: set<int>, p: Path)
    requires Shape(nodes, at, fan, detached) && p in at && at[p] in nodes && |nodes[at[p]].branches| <= fan
    ensures Leaf(at, p) <==> forall i :: 0 <= i < |nodes[at[p]].branches| ==> nodes[at[p]].branches[i] == NULL
  {
    var b := nodes[at[p]].branches;
    assert NodeAt(nodes, at, fan, p);
    if i :| 0 <= i < |b| && b[i] != NULL {
      assert Child(nodes[at[p]], i) == Ptr(at, p + [i]);
      assert p + [i] in at;
    }
    if !Leaf(at, p) {
      var q: Path, e: nat :| q + [e] in at && q == p;
      assert Child(nodes[at[p]], e) == Ptr(at, p + [e]);
      assert b[e] != NULL;
    }
  }

  /** Going up from a leaf that is to be pruned. */
  lemma PruneStep(nodes: Heap, at: Index, fan: nat, detached: set<int>, p: Path)
    requires Shape(nodes, at, fan, detached) && p in at && p != [] && Leaf(at, p)
    requires forall a :: a in nodes ==> |nodes[a].branches| <= fan
    ensures Up(p) in at && at[Up(p)] in nodes && at[p] in nodes && at[Up(p)] != NULL && Up(p) != p
    ensures nodes[at[p]].parent == at[Up(p)]
    ensures Shape(Unlinked(nodes, at[Up(p)], at[p]), at - {p}, fan, detached + {at[p]})
    ensures Once(nodes[at[Up(p)]].branches, at[p])
  {
    var q, d := Up(p), p[|p| - 1];
    assert p == q + [d];
    assert NodeAt(nodes, at, fan, p) && NodeAt(nodes, at, fan, q);
    assert Child(nodes[at[q]], d) == Ptr(at, q + [d]);
    UnlinkedIsCut(nodes, at, fan, detached, q, d);
    CutShape(nodes, at, fan, detached, q, d);
  }

  lemma LinkedAtCut(nodes: Heap, at: Index, keys: set<Path>, node: int, child: int, p: Path)
    requires LinkedAt(nodes, at, keys) && node in nodes
    ensures LinkedAt(Unlinked(nodes, node, child), at, keys)
    ensures LinkedAt(nodes, at - {p}, keys)
  {}

  lemma ExactShrinks(at: Index, keys: set<Path>, w: Path, p: Path)
    requires Exact(at, keys) && w in keys
    ensures p in at <==> Needed(keys - {w}, p) || p <= w
  {
    if p in at && p != [] {
      var k :| k in keys && p <= k;
      assert k == w || k in keys - {w};
    }
    if Needed(keys - {w}, p) && p != [] {
      var k :| k in keys - {w} && p <= k;
      assert k in keys;
    }
  }

  /** After the link at `w` is cleared and the tree is pruned upward from there,
      it holds the other links and exactly the nodes they need. */
  lemma PrunedHolds(nodes0: Heap, at0: Index, links: map<Path, int>, w: Path, nodes: Heap, at: Index)
    requires Holds(nodes0, at0, links) && w in links
    requires at == Pruned(at0, links.Keys - {w}, w)
    requires forall q :: q in at ==>
      q in at0 && at[q] == at0[q] && at[q] in nodes
      && nodes[at[q]].link == (if q == w then NULL else nodes0[at[q]].link)
    ensures Holds(nodes, at, links - {w})
  {
    forall p ensures p in at0 <==> Needed(links.Keys - {w}, p) || p <= w {
      ExactShrinks(at0, links.Keys, w, p);
    }
    PrunedExact(at0, links.Keys - {w}, w);
    assert (links - {w}).Keys == links.Keys - {w};
  }

  /** Trees that hold the same keys have nodes for the same paths. */
  lemma KeysDetermineNodes(nodes: Heap, at: Index, links: map<Path, int>,
                           nodes': Heap, at': Index, links': map<Path, int>)
    requires Holds(nodes, at, links) && Holds(nodes', at', links') && links.Keys == links'.Keys
    ensures at.Keys == at'.Keys
  {
    forall p ensures p in at <==> p in at' {
      assert Needed(links.Keys, p) <==> Needed(links'.Keys, p);
    }
  }

  /** Giving a node without branches an array of null branches keeps the shape. */
  lemma WidenShape(nodes: Heap, at: Index, fan: nat, p: Path, blank: seq<int>)
    requires Shape(nodes, at, fan, {}) && p in at && at[p] in nodes && nodes[at[p]].branches == []
    requires forall i :: 0 <= i < |blank| ==> blank[i] == NULL
    ensures Shape(nodes[at[p] := nodes[at[p]].(branches := blank)], at, fan, {})
  {
    var r := nodes[at[p] := nodes[at[p]].(branches := blank)];
    forall q | q in at ensures NodeAt(r, at, fan, q) {
      assert NodeAt(nodes, at, fan, q);
    }
  }

  /** Dropping an array of null branches keeps the shape. */
  lemma NarrowShape(nodes: Heap, at: Index, fan: nat, detached: set<int>, p: Path)
    requires Shape(nodes, at, fan, detached) && p in at && at[p] in nodes
    requires forall i :: 0 <= i < |nodes[at[p]].branches| ==> nodes[at[p]].branches[i] == NULL
    ensures Shape(nodes[at[p] := nodes[at[p]].(branches := [])], at, fan, detached)
  {
    var r := nodes[at[p] := nodes[at[p]].(branches := [])];
    forall q | q in at ensures NodeAt(r, at, fan, q) {
      assert NodeAt(nodes, at, fan, q);
    }
  }

  /** Adding a leaf makes its parent, and only it, cease to be one. */
  lemma LeafAfterHang(at: Index, fan: nat, p: Path, d: nat, a: int, q: Path)
    requires Paths(at, fan) && p in at && p + [d] !in at
    ensures Leaf(at[p + [d] := a], q) <==> Leaf(at, q) && q != p
    ensures Leaf(at, p + [d])
  {
    var at' := at[p + [d] := a];
    if Leaf(at, q) && q != p {
      forall r: Path, e: nat {:trigger r + [e] in at'} | r + [e] in at' ensures r != q {
        if r + [e] == p + [d] {
          SnocInjective(r, e, p, d);
        } else {
          assert r + [e] in at;
        }
      }
    } else if q == p {
      assert p + [d] in at';
    } else {
      var r: Path, e: nat :| r + [e] in at && r == q;
      assert r + [e] in at';
    }
  }

  /** Taking out a leaf can make only its parent a leaf. */
  lemma LeafAfterCut(at: Index, w: Path, q: Path)
    requires w in at && w != [] && q != Up(w)
    ensures Leaf(at - {w}, q) <==> Leaf(at, q)
  {
    var at' := at - {w};
    if !Leaf(at, q) {
      var r: Path, e: nat :| r + [e] in at && r == q;
      assert Up(r + [e]) == r;
      assert r + [e] in at';
    }
    if !Leaf(at', q) {
      var r: Path, e: nat :| r + [e] in at' && r == q;
      assert r + [e] in at;
    }
  }

  // ---------------------------------------------------------------- growing

  /** `at` is `at0` with the prefixes of `w` added. */
  ghost predicate GrownTo(at0: Index, at: Index, w: Path) {
    && (forall p :: p in at0 ==> p in at && at[p] == at0[p])
    && (forall p :: p in at <==> p in at0 || p <= w)
  }

  lemma GrownToNothing(at: Index, w: Path)
    requires [] in at
    ensures GrownTo(at, at, w[..0])
  {}

  lemma IndexGrows(at0: Index, at1: Index, at: Index, w: Path, j: nat, a: int)
    requires j < |w| && GrownTo(at0, at1, w[..j])
    requires at == if w[..j + 1] in at1 then at1 else at1[w[..j + 1] := a]
    ensures GrownTo(at0, at, w[..j + 1])
  {
    forall p ensures p in at <==> p in at0 || p <= w[..j + 1] {
      PrefixGrows(w, j, p);
    }
  }

  lemma PrefixGrows(w: Path, j: nat, p: Path)
    requires j < |w|
    ensures p <= w[..j + 1] <==> p <= w[..j] || p == w[..j + 1]
  {
    if |p| <= j {
      assert w[..j + 1][..|p|] == w[..j][..|p|];
    }
  }

  lemma GrownToKeeps(at0: Index, at: Index, w: Path, p: Path)
    requires GrownTo(at0, at, w)
    ensures p in at0 ==> p in at
  {}

  lemma FreshAddress(s: set<int>)
    ensures exists a :: a !in s && a > ROOT
  {
    var a := Above(s);
    assert a !in s;
  }

  lemma {:induction false} Above(s: set<int>) returns (a: int)
    ensures a > ROOT && forall x :: x in s ==> x < a
  {
    a := ROOT + 1;
    if exists x :: x in s {
      var x :| x in s;
      var b := Above(s - {x});
      a := if x < b then b else x + 1;
      assert forall y :: y in s ==> y == x || y in s - {x};
    }
  }

  lemma RootIff(nodes: Heap, at: Index, fan: nat, detached: set<int>, p: Path)
    requires Shape(nodes, at, fan, detached) && p in at && at[p] in nodes
    ensures p == [] <==> at[p] == ROOT
    ensures p == [] ==> nodes[at[p]].parent == NULL
    ensures at[p] !in detached
  {
    assert NodeAt(nodes, at, fan, p);
  }

  lemma NotLinked(nodes: Heap, at: Index, fan: nat, links: map<Path, int>, w: Path)
    requires Shape(nodes, at, fan, {}) && Holds(nodes, at, links) && w != []
    ensures Ptr(at, w) != NULL ==> w in at && Ptr(at, w) in nodes
    ensures (Ptr(at, w) == NULL || Ptr(at, w) == ROOT || nodes[Ptr(at, w)].link == NULL)
      ==> w !in links && links - {w} == links
  {
    assert w in links ==> Needed(links.Keys, w);
  }

  lemma {:induction false} ClearLink(nodes: Heap, at: Index, fan: nat, links: map<Path, int>, w: Path)
    requires Shape(nodes, at, fan, {}) && Holds(nodes, at, links)
    requires w in at && at[w] in nodes && nodes[at[w]].link != NULL
    ensures w in links && at[w] != NULL
    ensures var nodes' := nodes[at[w] := nodes[at[w]].(link := NULL)];
      Shape(nodes', at, fan, {}) && LinkedAt(nodes', at, links.Keys - {w})
      && forall p :: p in at ==> nodes'[at[p]].link == (if p == w then NULL else nodes[at[p]].link)
  {
    RelinkShape(nodes, at, fan, {}, w, NULL);
  }

  lemma NodeIn(nodes: Heap, at: Index, fan: nat, p: Path)
    requires Shape(nodes, at, fan, {}) && p in at
    ensures at[p] in nodes
  {}

  lemma NoNull(nodes: Heap, at: Index, fan: nat, p: Path)
    requires Shape(nodes, at, fan, {}) && Ptr(at, p) == NULL
    ensures p !in at
  {}
}
