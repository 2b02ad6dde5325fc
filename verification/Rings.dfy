/**
 * The circular doubly linked lists of include/common/list_types.h. A list is a
 * ring of link objects, one of which is its head.
 */
module Rings {

  class ListHead {
    var prev: ListHead
    var next: ListHead

    /** A link alone is an empty list. */
    constructor ()
      ensures prev == this && next == this && Ring([this])
    {
      prev := this;
      next := this;
    }

    method Init()
      modifies this
      ensures prev == this && next == this && Ring([this])
    {
      next := this;
      prev := this;
    }
  }

  function Succ(i: nat, n: nat): nat
    requires i < n
  {
    if i + 1 == n then 0 else i + 1
  }

  function Pred(i: nat, n: nat): nat
    requires i < n
  {
    if i == 0 then n - 1 else i - 1
  }

  ghost predicate Links(r: seq<ListHead>, i: nat)
    requires i < |r|
    reads r[i]
  {
    r[i].next == r[Succ(i, |r|)] && r[i].prev == r[Pred(i, |r|)]
  }

  ghost predicate NoRepeats(r: seq<ListHead>) {
    forall i, j :: 0 <= i < j < |r| ==> r[i] != r[j]
  }

  /** The links of `r`, in this order, form a ring; the first is its head. */
  ghost predicate Ring(r: seq<ListHead>)
    reads r
  {
    r != [] && NoRepeats(r) && forall i :: 0 <= i < |r| ==> Links(r, i)
  }

  function Cut(r: seq<ListHead>, i: nat): seq<ListHead>
    requires i < |r|
  {
    r[..i] + r[i + 1..]
  }

  lemma CutNoRepeats(r: seq<ListHead>, i: nat)
    requires NoRepeats(r) && i < |r|
    ensures NoRepeats(Cut(r, i))
  {
    var c := Cut(r, i);
    forall j, k | 0 <= j < k < |c| ensures c[j] != c[k] {
      assert c[j] == r[if j < i then j else j + 1] && c[k] == r[if k < i then k else k + 1];
    }
  }

  /** A ring may be entered at any of its links. */
  lemma RingRotates(r: seq<ListHead>, k: nat)
    requires Ring(r) && k < |r|
    ensures Ring(r[k..] + r[..k])
  {
    var s, n := r[k..] + r[..k], |r|;
    forall i, j | 0 <= i < j < n ensures s[i] != s[j] {
      assert s[i] == r[if k + i < n then k + i else k + i - n];
      assert s[j] == r[if k + j < n then k + j else k + j - n];
    }
    forall i | 0 <= i < n ensures Links(s, i) {
      var j := if k + i < n then k + i else k + i - n;
      assert s[i] == r[j] && Links(r, j);
      assert s[Succ(i, n)] == r[Succ(j, n)] && s[Pred(i, n)] == r[Pred(j, n)];
    }
  }

  method IsEmpty(head: ListHead, ghost r: seq<ListHead>) returns (empty: bool)
    requires Ring(r) && r[0] == head
    ensures empty <==> r == [head]
  {
    assert Links(r, 0);
    empty := head.prev == head && head.next == head;
    assert |r| > 1 ==> r[1] != r[0];
  }

  /** Looks for a member from both ends at once; the cursors meet in a list of
      odd length and pass each other in one of even length. */
  method ForEach(head: ListHead, list: ListHead, ghost r: seq<ListHead>) returns (found: bool)
    requires Ring(r) && r[0] == head
    ensures found <==> list in r[1..]
  {
    ghost var n, k := |r|, 1;
    assert Links(r, 0);
    var right, left := head.next, head.prev;
    while right != head && left != head
      invariant 1 <= k <= n
      invariant right == r[if k == n then 0 else k] && left == r[n - k]
      invariant forall j :: 1 <= j < k ==> r[j] != list
      invariant forall j :: n - k < j < n ==> r[j] != list
      decreases n - k
    {
      assert Links(r, k) && Links(r, n - k);
      if left == list || right == list {
        found := true;
        assert r[1..][k - 1] == r[k] && r[1..][n - k - 1] == r[n - k];
        return;
      }
      if left == right {
        assert k == n - k;
        return false;
      }
      right, left := right.next, left.prev;
      k := k + 1;
    }
    assert k == n;
    return false;
  }

  /** Puts a link that is in no ring first. */
  method AddHead(head: ListHead, list: ListHead, ghost r: seq<ListHead>)
    requires Ring(r) && r[0] == head && list !in r
    modifies r, list
    ensures Ring([head, list] + r[1..])
  {
    ghost var s := [head, list] + r[1..];
    assert Links(r, 0);
    ghost var at := Succ(0, |r|);
    assert Links(r, at);
    var next := head.next;
    list.prev := head;
    head.next := list;
    list.next := next;
    next.prev := list;
    forall i | 0 <= i < |s| ensures Links(s, i) {
      assert i > 1 ==> s[i] == r[i - 1] && old(Links(r, i - 1));
    }
  }

  /** Puts a link that is in no ring last. */
  method AddTail(head: ListHead, list: ListHead, ghost r: seq<ListHead>)
    requires Ring(r) && r[0] == head && list !in r
    modifies r, list
    ensures Ring(r + [list])
  {
    ghost var s, n := r + [list], |r|;
    assert Links(r, 0) && Links(r, n - 1);
    var prev := head.prev;
    list.prev := prev;
    prev.next := list;
    list.next := head;
    head.prev := list;
    forall i | 0 <= i < |s| ensures Links(s, i) {
      assert i < n ==> s[i] == r[i] && old(Links(r, i));
    }
  }

  /** Takes a link out of its ring; its own pointers stay as they are. */
  method Del(list: ListHead, ghost r: seq<ListHead>, ghost i: nat)
    requires Ring(r) && |r| > 1 && i < |r| && r[i] == list
    modifies set x | x in r && x != list
    ensures Ring(Cut(r, i))
  {
    ghost var n := |r|;
    CutNoRepeats(r, i);
    assert Links(r, i);
    var prev, next := list.prev, list.next;
    prev.next := next;
    next.prev := prev;
    forall j | 0 <= j < n - 1 ensures Links(Cut(r, i), j) {
      ghost var u := if j < i then j else j + 1;
      assert Cut(r, i)[j] == r[u] && old(Links(r, u));
    }
  }

  /** Takes `list` out if it is a member of the list at `head`; otherwise changes
      nothing. */
  method DelSafe(head: ListHead, list: ListHead, ghost r: seq<ListHead>) returns (ghost i: nat)
    requires Ring(r) && r[0] == head
    modifies r
    ensures list in r[1..] ==> 1 <= i < |r| && r[i] == list && Ring(Cut(r, i))
    ensures list !in r[1..] ==> Ring(r) && forall x :: x in r ==> unchanged(x)
    ensures unchanged(list)
  {
    i := 0;
    var found := ForEach(head, list, r);
    if found {
      i :| 1 <= i < |r| && r[i] == list;
      Del(list, r, i);
    }
  }

  /** Adding a link last and taking it out again leaves the ring as it was, link
      for link. */
  method AddTailThenDel(head: ListHead, list: ListHead, ghost r: seq<ListHead>)
    requires Ring(r) && r[0] == head && list !in r
    modifies r, list
    ensures Ring(r)
  {
    AddTail(head, list, r);
    ghost var i := DelSafe(head, list, r + [list]);
    assert (r + [list])[1..][|r| - 1] == list;
    assert Cut(r + [list], i) == r;
  }

  /** So does adding it first. */
  method AddHeadThenDel(head: ListHead, list: ListHead, ghost r: seq<ListHead>)
    requires Ring(r) && r[0] == head && list !in r
    modifies r, list
    ensures Ring(r)
  {
    AddHead(head, list, r);
    ghost var s := [head, list] + r[1..];
    ghost var i := DelSafe(head, list, s);
    assert s[1..][0] == list;
    assert Cut(s, 1) == r;
  }
}
