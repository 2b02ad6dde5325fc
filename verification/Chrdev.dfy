/**
 * The character device numbers of platform/chardev/fwk_chrdev.c as values: for
 * each major number a list of disjoint intervals of minor numbers, in order.
 */
module Chrdev {
  import opened Common

  const MAJORS: nat := 255
  /** Minor numbers per major: 20 bits. */
  const MINORS: nat := 0x10_0000
  const WORD: nat := 0x1_0000_0000

  datatype Dev = Dev(major: nat, base: nat, count: nat, name: string)

  type Table = seq<seq<Dev>>

  predicate Overlaps(d: Dev, base: int, count: int) {
    d.base < base + count && base < d.base + d.count
  }

  /** The intervals are not empty, in order, and pairwise disjoint. */
  ghost predicate Ranked(list: seq<Dev>) {
    && (forall i :: 0 <= i < |list| ==> list[i].count > 0)
    && (forall i, j :: 0 <= i < j < |list| ==> list[i].base + list[i].count <= list[j].base)
  }

  ghost predicate TableOk(t: Table) {
    |t| == MAJORS && forall m :: 0 <= m < |t| ==> Ranked(t[m])
  }

  // --------------------------------------------------------------- one list

  /** Where the insertion loop stops: before the first interval that does not
      end below `base`. */
  function Position(list: seq<Dev>, base: nat): (p: nat)
    ensures p <= |list|
    ensures forall i :: 0 <= i < p ==> list[i].base < base && list[i].base + list[i].count - 1 < base
    ensures p < |list| ==> list[p].base >= base || list[p].base + list[p].count - 1 >= base
  {
    if list == [] || list[0].base >= base || list[0].base + list[0].count - 1 >= base then 0
    else Position(list[1..], base) + 1
  }

  function Inserted(list: seq<Dev>, d: Dev): seq<Dev> {
    var p := Position(list, d.base);
    list[..p] + [d] + list[p..]
  }

  /** The first interval that is exactly [base, base + count), or the length. */
  function Exact(list: seq<Dev>, base: nat, count: nat): (p: nat)
    ensures p <= |list|
    ensures forall i :: 0 <= i < p ==> !(list[i].base == base && list[i].count == count)
    ensures p < |list| ==> list[p].base == base && list[p].count == count
  {
    if list == [] || (list[0].base == base && list[0].count == count) then 0
    else Exact(list[1..], base, count) + 1
  }

  function Removed(list: seq<Dev>, base: nat, count: nat): seq<Dev> {
    var p := Exact(list, base, count);
    if p < |list| then list[..p] + list[p + 1..] else list
  }

  /** Looking only at the interval where the loop stops decides about all: the
      new one overlaps that one exactly when it overlaps any. */
  lemma OverlapDecided(list: seq<Dev>, base: nat, count: nat)
    requires Ranked(list) && count > 0
    ensures var p := Position(list, base);
      (p < |list| && Overlaps(list[p], base, count)) <==> exists d :: d in list && Overlaps(d, base, count)
  {
    var p := Position(list, base);
    if d :| d in list && Overlaps(d, base, count) {
      var i :| 0 <= i < |list| && list[i] == d;
      assert i >= p;
      assert i > p ==> list[p].base + list[p].count <= list[i].base;
    }
  }

  lemma InsertedRanked(list: seq<Dev>, d: Dev)
    requires Ranked(list) && d.count > 0 && forall u :: u in list ==> !Overlaps(u, d.base, d.count)
    ensures Ranked(Inserted(list, d))
  {
    hide Position;
    var p, r := Position(list, d.base), Inserted(list, d);
    forall i | p <= i < |list| ensures d.base + d.count <= list[i].base {
      assert list[i] in list && list[p] in list;
    }
    forall i, j | 0 <= i < j < |r| ensures r[i].base + r[i].count <= r[j].base {
      assert r[i] == if i < p then list[i] else if i == p then d else list[i - 1];
      assert r[j] == if j < p then list[j] else if j == p then d else list[j - 1];
    }
  }

  lemma RemovedRanked(list: seq<Dev>, base: nat, count: nat)
    requires Ranked(list)
    ensures Ranked(Removed(list, base, count))
  {}

  /** Removing the interval just inserted restores the list. */
  lemma RemovedInserted(list: seq<Dev>, d: Dev)
    requires d.count > 0 && forall u :: u in list ==> !Overlaps(u, d.base, d.count)
    ensures Removed(Inserted(list, d), d.base, d.count) == list
  {
    var p, r := Position(list, d.base), Inserted(list, d);
    var e := Exact(r, d.base, d.count);
    assert r[p] == d;
    assert e == p;
  }

  /** Removal takes out the interval that matches exactly, if there is one, and no
      other; without a match the list is unchanged. */
  lemma RemovedIs(list: seq<Dev>, base: nat, count: nat, x: Dev)
    requires Ranked(list)
    ensures x in Removed(list, base, count) <==> x in list && !(x.base == base && x.count == count)
    ensures (forall u :: u in list ==> !(u.base == base && u.count == count)) ==> Removed(list, base, count) == list
  {
    hide Exact;
    var p := Exact(list, base, count);
    if p < |list| {
      assert list[p] in list && list == list[..p] + [list[p]] + list[p + 1..];
      if x in list[p + 1..] {
        var j :| p < j < |list| && list[j] == x;
        assert list[p].base + list[p].count <= x.base;
      }
      if x in list[..p] {
        var j :| 0 <= j < p && list[j] == x;
      }
    }
  }

  /** Insertion adds the interval and takes nothing out. */
  lemma InsertedHas(list: seq<Dev>, d: Dev, x: Dev)
    ensures x in Inserted(list, d) <==> x in list || x == d
  {
    hide Position;
    var p := Position(list, d.base);
    assert list == list[..p] + list[p..];
  }

  // -------------------------------------------------------------- the table

  /** The part of the numbers [lo, hi) that falls to one major. */
  datatype Piece = Piece(major: nat, base: nat, count: nat)

  function Cut(lo: nat, hi: nat, m: nat): Piece
    requires lo / MINORS <= m < End(hi) && lo < hi
  {
    var from := if m * MINORS < lo then lo else m * MINORS;
    var to := if (m + 1) * MINORS < hi then (m + 1) * MINORS else hi;
    Piece(m, from - m * MINORS, to - from)
  }

  /** The first major without a number below `hi`. */
  function End(hi: nat): nat {
    (hi + MINORS - 1) / MINORS
  }

  /** The highest major number with an empty list, or -1. */
  function HighestEmpty(t: Table): (m: int)
    ensures -1 <= m < |t| && (m >= 0 ==> t[m] == [])
    ensures forall j :: m < j < |t| ==> t[j] != []
  {
    if t == [] then -1
    else if t[|t| - 1] == [] then |t| - 1
    else HighestEmpty(t[..|t| - 1])
  }

  /** The list a piece goes to: major 0 asks for any free one. */
  function Slot(t: Table, major: nat): int {
    if major == 0 then HighestEmpty(t) else if major < |t| then major else -1
  }

  function DevOf(c: Piece, name: string): Dev {
    Dev(c.major, c.base, c.count, name)
  }

  ghost predicate Accepts(t: Table, c: Piece) {
    && c.count > 0 && 0 <= Slot(t, c.major) < |t|
    && forall d :: d in t[Slot(t, c.major)] ==> !Overlaps(d, c.base, c.count)
  }

  ghost function Placed(t: Table, c: Piece, name: string): Table
    requires Accepts(t, c)
  {
    var m := Slot(t, c.major);
    t[m := Inserted(t[m], Dev(m, c.base, c.count, name))]
  }

  ghost function Taken(t: Table, c: Piece): Table {
    if c.major < |t| then t[c.major := Removed(t[c.major], c.base, c.count)] else t
  }

  /** An accepted piece is entered in the list it goes to, with its numbers and its
      name; the other lists stay. */
  lemma PlacedIs(t: Table, c: Piece, name: string, m: nat, x: Dev)
    requires Accepts(t, c) && m < |t|
    ensures |Placed(t, c, name)| == |t|
    ensures x in Placed(t, c, name)[m] <==>
      x in t[m] || (m == Slot(t, c.major) && x == Dev(Slot(t, c.major), c.base, c.count, name))
  {
    hide Inserted;
    var s := Slot(t, c.major);
    InsertedHas(t[s], Dev(s, c.base, c.count, name), x);
  }

  /** A piece that is taken out leaves its own list only, and only by its exact
      interval. */
  lemma TakenIs(t: Table, c: Piece, m: nat, x: Dev)
    requires TableOk(t) && m < |t|
    ensures |Taken(t, c)| == |t|
    ensures x in Taken(t, c)[m] <==> x in t[m] && !(m == c.major && x.base == c.base && x.count == c.count)
  {
    hide Removed, Ranked;
    if c.major < |t| {
      RemovedIs(t[c.major], c.base, c.count, x);
    }
  }

  lemma PlacedOk(t: Table, c: Piece, name: string)
    requires TableOk(t) && Accepts(t, c)
    ensures TableOk(Placed(t, c, name))
  {
    InsertedRanked(t[Slot(t, c.major)], Dev(Slot(t, c.major), c.base, c.count, name));
  }

  lemma TakenOk(t: Table, c: Piece)
    requires TableOk(t)
    ensures TableOk(Taken(t, c))
  {
    if c.major < |t| {
      RemovedRanked(t[c.major], c.base, c.count);
    }
  }

  /** Registers the pieces from major `m` on until one is refused; the second
      part is the major where that stops. */
  ghost function RegisteredFrom(t: Table, lo: nat, hi: nat, name: string, m: nat): (r: (Table, nat))
    requires lo < hi && lo / MINORS <= m
    ensures m <= r.1 && (r.1 <= End(hi) || r.1 == m)
    decreases End(hi) - m
  {
    if m < End(hi) && Accepts(t, Cut(lo, hi, m)) then
      RegisteredFrom(Placed(t, Cut(lo, hi, m), name), lo, hi, name, m + 1)
    else (t, m)
  }

  ghost function UnregisteredFrom(t: Table, lo: nat, hi: nat, m: nat): Table
    requires lo < hi && lo / MINORS <= m
    decreases End(hi) - m
  {
    if m < End(hi) then UnregisteredFrom(Taken(t, Cut(lo, hi, m)), lo, hi, m + 1) else t
  }

  ghost function Unregistered(t: Table, lo: nat, count: nat): Table {
    if count == 0 then t else UnregisteredFrom(t, lo, lo + count, lo / MINORS)
  }

  /** The numbers that registration got through before major `e` refused. */
  function Reached(lo: nat, e: nat): nat {
    if e * MINORS < lo then 0 else e * MINORS - lo
  }

  /** Registration as a whole: all pieces, or the ones that went through are
      taken back. */
  ghost function Registered(t: Table, lo: nat, count: nat, name: string): (bool, Table) {
    if count == 0 then (true, t)
    else
      var (u, e) := RegisteredFrom(t, lo, lo + count, name, lo / MINORS);
      if e == End(lo + count) then (true, u) else (false, Unregistered(u, lo, Reached(lo, e)))
  }

  /** An empty range is registered and unregistered by doing nothing. */
  lemma NothingRegistered(t: Table, lo: nat, name: string)
    ensures Registered(t, lo, 0, name) == (true, t) && Unregistered(t, lo, 0) == t
  {}

  // ---------------------------------------------- pieces of different majors

  /** What registration from a major other than 0 does, list by list. */
  ghost predicate Extended(t: Table, u: Table, lo: nat, hi: nat, name: string, m: nat, e: nat)
    requires lo < hi && lo / MINORS <= m
  {
    && |u| == |t| && (m < e ==> e <= |t| && e <= End(hi))
    && (forall j :: 0 <= j < |t| && !(m <= j < e) ==> u[j] == t[j])
    && (forall j :: m <= j < e ==> Accepts(t, Cut(lo, hi, j)))
    && (forall j :: m <= j < e ==> u[j] == Inserted(t[j], DevOf(Cut(lo, hi, j), name)))
  }

  lemma CutMajor(lo: nat, hi: nat, m: nat)
    requires lo < hi && lo / MINORS <= m < End(hi)
    ensures Cut(lo, hi, m).major == m && Cut(lo, hi, m).count > 0
    ensures Cut(lo, hi, m).base + Cut(lo, hi, m).count <= MINORS
    ensures m > lo / MINORS ==> Cut(lo, hi, m).base == 0
  {}

  lemma {:induction false} RegisteredExtends(t: Table, lo: nat, hi: nat, name: string, m: nat)
    requires lo < hi && lo / MINORS <= m && m >= 1
    ensures var (u, e) := RegisteredFrom(t, lo, hi, name, m);
      Extended(t, u, lo, hi, name, m, e) && (e < End(hi) ==> !Accepts(t, Cut(lo, hi, e)))
    decreases End(hi) - m
  {
    hide Accepts, Cut, End, Inserted;
    if m < End(hi) && Accepts(t, Cut(lo, hi, m)) {
      var c := Cut(lo, hi, m);
      CutMajor(lo, hi, m);
      var t1 := Placed(t, c, name);
      RegisteredExtends(t1, lo, hi, name, m + 1);
      AcceptsSlot(t, c);
      assert t1[m] == Inserted(t[m], DevOf(c, name));
      forall j | m < j < End(hi) ensures Accepts(t1, Cut(lo, hi, j)) == Accepts(t, Cut(lo, hi, j)) {
        CutMajor(lo, hi, j);
        AcceptsOwn(t, t1, Cut(lo, hi, j));
      }
    }
  }

  lemma AcceptsSlot(t: Table, c: Piece)
    requires Accepts(t, c) && c.major > 0
    ensures c.major < |t| && Slot(t, c.major) == c.major
  {}

  /** Whether a piece is accepted depends on its own list only. */
  lemma AcceptsOwn(t: Table, u: Table, c: Piece)
    requires c.major > 0 && |t| == |u| && (c.major < |t| ==> t[c.major] == u[c.major])
    ensures Accepts(t, c) == Accepts(u, c)
  {}

  lemma {:induction false} UnregisteredAt(t: Table, lo: nat, hi: nat, m: nat, j: nat)
    requires lo < hi && lo / MINORS <= m && j < |t|
    ensures |UnregisteredFrom(t, lo, hi, m)| == |t|
    ensures UnregisteredFrom(t, lo, hi, m)[j] ==
      if m <= j < End(hi) then Removed(t[j], Cut(lo, hi, j).base, Cut(lo, hi, j).count) else t[j]
    decreases End(hi) - m
  {
    hide Cut, End, Removed;
    if m < End(hi) {
      CutMajor(lo, hi, m);
      UnregisteredAt(Taken(t, Cut(lo, hi, m)), lo, hi, m + 1, j);
    }
  }

  /** The pieces up to the major that refused are those of a shorter range. */
  lemma SamePiece(lo: nat, hi: nat, e: nat, m: nat)
    requires lo < hi && lo / MINORS <= m < e < End(hi)
    ensures lo < lo + Reached(lo, e) && End(lo + Reached(lo, e)) == e
    ensures Cut(lo, lo + Reached(lo, e), m) == Cut(lo, hi, m)
  {}

  lemma ReachedNone(lo: nat)
    ensures Reached(lo, lo / MINORS) == 0
  {}

  lemma ExtendedShorter(t: Table, u: Table, lo: nat, hi: nat, name: string, m: nat, e: nat)
    requires lo < hi && lo / MINORS <= m <= e < End(hi) && lo / MINORS < e && Extended(t, u, lo, hi, name, m, e)
    ensures var hi' := lo + Reached(lo, e); lo < hi' && End(hi') == e && Extended(t, u, lo, hi', name, m, e)
  {
    hide Cut, End, Accepts, Inserted, Reached;
    var hi' := lo + Reached(lo, e);
    SamePiece(lo, hi, e, e - 1);
    forall j | m <= j < e ensures Cut(lo, hi', j) == Cut(lo, hi, j) {
      SamePiece(lo, hi, e, j);
    }
  }

  /** Taking back the pieces undoes, list by list, the registration of those of
      majors from `m` on. */
  lemma TakenBack(t: Table, u: Table, lo: nat, hi: nat, name: string, m: nat, m0: nat, j: nat)
    requires lo < hi && lo / MINORS <= m0 <= m && 1 <= m <= End(hi) && Extended(t, u, lo, hi, name, m, End(hi))
    requires m <= j < |t|
    ensures |UnregisteredFrom(u, lo, hi, m0)| == |t| && UnregisteredFrom(u, lo, hi, m0)[j] == t[j]
  {
    hide Cut, End, Removed, Inserted, UnregisteredFrom, Accepts;
    UnregisteredAt(u, lo, hi, m0, j);
    if j < End(hi) {
      var c := Cut(lo, hi, j);
      CutMajor(lo, hi, j);
      NoneOverlaps(t, c);
      RemovedInserted(t[j], DevOf(c, name));
    }
  }

  lemma NoneOverlaps(t: Table, c: Piece)
    requires Accepts(t, c) && c.major > 0
    ensures forall d :: d in t[c.major] ==> !Overlaps(d, c.base, c.count)
  {}

  // --------------------------------------------- registration as a whole

  /** Where registration ends and how far it must be taken back. */
  ghost function Through(lo: nat, count: nat, e: nat): nat {
    if e == End(lo + count) then count else Reached(lo, e)
  }

  /** Taking back what went through: for majors other than 0 this restores the
      table. */
  lemma UndoHigh(t: Table, lo: nat, count: nat, name: string)
    requires count > 0 && lo >= MINORS && |t| == MAJORS
    ensures var (u, e) := RegisteredFrom(t, lo, lo + count, name, lo / MINORS);
      Unregistered(u, lo, Through(lo, count, e)) == t
  {
    hide RegisteredFrom, Unregistered, Through, Extended, Accepts, End, Cut;
    var m, hi := lo / MINORS, lo + count;
    var (u, e) := RegisteredFrom(t, lo, hi, name, m);
    Ends(lo, count);
    RegisteredExtends(t, lo, hi, name, m);
    UndoFrom(t, u, lo, count, name, m, e);
  }

  lemma Ends(lo: nat, count: nat)
    requires count > 0
    ensures lo / MINORS < End(lo + count)
  {}

  lemma UndoFrom(t: Table, u: Table, lo: nat, count: nat, name: string, m: nat, e: nat)
    requires count > 0 && lo / MINORS == m >= 1 && m <= e <= End(lo + count) && |t| == MAJORS
    requires Extended(t, u, lo, lo + count, name, m, e)
    ensures Unregistered(u, lo, Through(lo, count, e)) == t
  {
    hide Cut, Removed, Inserted, Accepts, UnregisteredFrom, Reached, End;
    Ends(lo, count);
    if e == m {
      ReachedNone(lo);
      assert u == t;
    } else {
      if e < End(lo + count) {
        ExtendedShorter(t, u, lo, lo + count, name, m, e);
      }
      var hi := lo + Through(lo, count, e);
      var r := UnregisteredFrom(u, lo, hi, m);
      forall j: nat | j < |t| ensures |r| == |t| && r[j] == t[j] {
        UnregisteredAt(u, lo, hi, m, j);
        if m <= j {
          TakenBack(t, u, lo, hi, name, m, m, j);
        }
      }
      UnregisteredAt(u, lo, hi, m, 0);
    }
  }

  /** A first piece of major 0 goes to the highest empty list but is taken back
      from list 0. */
  lemma UndoLow(t: Table, lo: nat, count: nat, name: string)
    requires count > 0 && lo < MINORS && |t| == MAJORS
    ensures var (u, e) := RegisteredFrom(t, lo, lo + count, name, 0);
      && (HighestEmpty(t) < 0 ==> e == 0)
      && (Unregistered(u, lo, Through(lo, count, e)) == t <==> HighestEmpty(t) <= 0)
  {
    hide Removed, Inserted, UnregisteredFrom, Reached, Extended;
    var hi, s := lo + count, HighestEmpty(t);
    var (u, e) := RegisteredFrom(t, lo, hi, name, 0);
    Ends(lo, count);
    CutMajor(lo, hi, 0);
    var c := Cut(lo, hi, 0);
    if s < 0 {
      ReachedNone(lo);
    } else {
      var t1 := Placed(t, c, name);
      assert t1 == t[s := [Dev(s, c.base, c.count, name)]] by { InsertedAlone(Dev(s, c.base, c.count, name)); }
      RegisteredExtends(t1, lo, hi, name, 1);
      UndoLowFrom(t1, u, lo, count, name, e, c);
      RemovedAlone(Dev(s, c.base, c.count, name));
      var r := Unregistered(u, lo, Through(lo, count, e));
      if s == 0 {
        assert forall j :: 0 <= j < |t| ==> r[j] == t[j];
      } else {
        assert r[s] == t1[s];
      }
    }
  }

  lemma InsertedAlone(d: Dev)
    ensures Inserted([], d) == [d]
  {}

  lemma RemovedAlone(d: Dev)
    ensures Removed([d], d.base, d.count) == []
  {}

  lemma UndoLowFrom(t: Table, u: Table, lo: nat, count: nat, name: string, e: nat, c: Piece)
    requires count > 0 && lo < MINORS && 1 <= e <= End(lo + count) && |t| == MAJORS && c == Cut(lo, lo + count, 0)
    requires Extended(t, u, lo, lo + count, name, 1, e)
    ensures var r := Unregistered(u, lo, Through(lo, count, e));
      && |r| == |t| && r[0] == Removed(t[0], c.base, c.count)
      && forall j :: 1 <= j < |t| ==> r[j] == t[j]
  {
    hide Cut, Removed, Inserted, Accepts, UnregisteredFrom, Reached, End;
    Ends(lo, count);
    if e < End(lo + count) {
      ExtendedShorter(t, u, lo, lo + count, name, 1, e);
      SamePiece(lo, lo + count, e, 0);
    }
    var hi := lo + Through(lo, count, e);
    UnregisteredAt(u, lo, hi, 0, 0);
    forall j: nat | 1 <= j < |t| ensures UnregisteredFrom(u, lo, hi, 0)[j] == t[j] {
      TakenBack(t, u, lo, hi, name, 1, 0, j);
    }
  }

  /** A refused registration leaves the table exactly as it was if and only if
      it starts at a major other than 0, or no list but list 0 was empty. */
  lemma {:induction false} RollbackIff(t: Table, lo: nat, count: nat, name: string)
    requires |t| == MAJORS && !Registered(t, lo, count, name).0
    ensures Registered(t, lo, count, name).1 == t <==> lo >= MINORS || HighestEmpty(t) <= 0
  {
    hide RegisteredFrom, Unregistered, End;
    if lo >= MINORS {
      UndoHigh(t, lo, count, name);
    } else {
      UndoLow(t, lo, count, name);
    }
  }

  /** Registering and unregistering is the identity if and only if the range is
      empty, starts at a major other than 0, or list 0 was the only empty one. */
  lemma {:induction false} RegisterThenUnregisterIff(t: Table, lo: nat, count: nat, name: string)
    requires |t| == MAJORS && Registered(t, lo, count, name).0
    ensures Unregistered(Registered(t, lo, count, name).1, lo, count) == t
      <==> count == 0 || lo >= MINORS || HighestEmpty(t) == 0
  {
    hide RegisteredFrom, UnregisteredFrom, End;
    if count > 0 {
      Ends(lo, count);
      if lo >= MINORS {
        UndoHigh(t, lo, count, name);
      } else {
        UndoLow(t, lo, count, name);
      }
    }
  }

  // ------------------------------------------------- the numbers registered

  /** Device number `n` belongs to a registered interval. */
  ghost predicate Held(t: Table, n: nat) {
    n / MINORS < |t| && Covers(t[n / MINORS], n % MINORS)
  }

  ghost predicate Covers(list: seq<Dev>, k: nat) {
    exists d :: d in list && d.base <= k < d.base + d.count
  }

  /** A piece is accepted exactly when its major exists and none of its numbers
      is held. */
  lemma AcceptsIffFree(t: Table, lo: nat, hi: nat, m: nat)
    requires TableOk(t) && lo < hi && 1 <= m && lo / MINORS <= m < End(hi)
    ensures Accepts(t, Cut(lo, hi, m)) <==>
      m < MAJORS && forall n: nat :: lo <= n < hi && n / MINORS == m ==> !Held(t, n)
  {
    var c := Cut(lo, hi, m);
    CutMajor(lo, hi, m);
    if m < MAJORS {
      if d :| d in t[m] && Overlaps(d, c.base, c.count) {
        var k := if d.base > c.base then d.base else c.base;
        var n := m * MINORS + k;
        assert Ranked(t[m]);
        InCut(lo, hi, m, n);
        assert Held(t, n);
      }
      forall n: nat | lo <= n < hi && n / MINORS == m && Held(t, n) ensures !Accepts(t, c) {
        var d :| d in t[m] && d.base <= n % MINORS < d.base + d.count;
        InCut(lo, hi, m, n);
        assert Overlaps(d, c.base, c.count);
      }
    }
  }

  /** The numbers of a piece. */
  lemma InCut(lo: nat, hi: nat, m: nat, n: nat)
    requires lo < hi && lo / MINORS <= m < End(hi)
    ensures var c := Cut(lo, hi, m);
      lo <= n < hi && n / MINORS == m <==> c.base <= n - m * MINORS < c.base + c.count
    ensures n / MINORS == m <==> 0 <= n - m * MINORS < MINORS
    ensures n / MINORS == m ==> n % MINORS == n - m * MINORS
  {}

  /** From major 1 on, registration succeeds exactly when the whole range has
      existing majors and none of its numbers is held. */
  lemma RegisteredIff(t: Table, lo: nat, count: nat, name: string)
    requires TableOk(t) && lo >= MINORS && count > 0
    ensures Registered(t, lo, count, name).0 <==>
      lo + count <= MAJORS * MINORS && forall n: nat :: lo <= n < lo + count ==> !Held(t, n)
  {
    hide RegisteredFrom, Cut, Accepts, Held, Inserted, Unregistered;
    var m, hi := lo / MINORS, lo + count;
    var (u, e) := RegisteredFrom(t, lo, hi, name, m);
    Ends(lo, count);
    RegisteredExtends(t, lo, hi, name, m);
    if e == End(hi) {
      forall n: nat | lo <= n < hi ensures !Held(t, n) {
        AcceptsIffFree(t, lo, hi, n / MINORS);
      }
    } else {
      AcceptsIffFree(t, lo, hi, e);
    }
  }

  lemma InsertedCovers(list: seq<Dev>, d: Dev, k: nat)
    ensures Covers(Inserted(list, d), k) <==> Covers(list, k) || d.base <= k < d.base + d.count
  {
    var p := Position(list, d.base);
    assert list == list[..p] + list[p..];
    assert d in Inserted(list, d);
  }

  lemma ExtendedHolds(t: Table, u: Table, lo: nat, hi: nat, name: string, m: nat, n: nat)
    requires lo < hi && (m == lo / MINORS || m == lo / MINORS + 1) && Extended(t, u, lo, hi, name, m, End(hi))
    ensures Held(u, n) <==> Held(t, n) || (lo <= n < hi && m <= n / MINORS)
  {
    hide Cut, Accepts, Inserted, Covers;
    var j := n / MINORS;
    if m <= j < End(hi) {
      InCut(lo, hi, j, n);
      InsertedCovers(t[j], DevOf(Cut(lo, hi, j), name), n % MINORS);
    }
  }

  /** After a successful registration the numbers held are those held before
      and those of the range. */
  lemma RegisteredHolds(t: Table, lo: nat, count: nat, name: string, n: nat)
    requires TableOk(t) && lo >= MINORS && count > 0 && Registered(t, lo, count, name).0
    ensures Held(Registered(t, lo, count, name).1, n) <==> Held(t, n) || lo <= n < lo + count
  {
    hide RegisteredFrom, Extended, Held, TableOk, End, Accepts, Cut;
    RegisteredExtends(t, lo, lo + count, name, lo / MINORS);
    ExtendedHolds(t, Registered(t, lo, count, name).1, lo, lo + count, name, lo / MINORS, n);
  }

  /** The table once the first piece of a range from major 0, whose numbers keep
      their minors, has gone to the highest empty list. */
  ghost function FirstPlaced(t: Table, lo: nat, count: nat, name: string): Table
    requires HighestEmpty(t) >= 0 && lo < MINORS
  {
    var (s, size) := (HighestEmpty(t), FirstSize(lo, count));
    t[s := [Dev(s, lo, size, name)]]
  }

  function FirstSize(lo: nat, count: nat): nat
    requires lo < MINORS
  {
    if lo + count < MINORS then count else MINORS - lo
  }

  lemma FirstStep(t: Table, lo: nat, count: nat, name: string)
    requires |t| == MAJORS && lo < MINORS && count > 0
    ensures HighestEmpty(t) < 0 ==> RegisteredFrom(t, lo, lo + count, name, 0) == (t, 0)
    ensures HighestEmpty(t) >= 0 ==> (
      RegisteredFrom(t, lo, lo + count, name, 0)
      == RegisteredFrom(FirstPlaced(t, lo, count, name), lo, lo + count, name, 1))
  {
    var hi, s := lo + count, HighestEmpty(t);
    Ends(lo, count);
    CutMajor(lo, hi, 0);
    if s >= 0 {
      InsertedAlone(Dev(s, lo, FirstSize(lo, count), name));
      assert Placed(t, Cut(lo, hi, 0), name) == FirstPlaced(t, lo, count, name);
    }
  }

  lemma FirstPlacedOk(t: Table, lo: nat, count: nat, name: string)
    requires TableOk(t) && lo < MINORS && count > 0 && HighestEmpty(t) >= 0
    ensures TableOk(FirstPlaced(t, lo, count, name))
  {}

  /** The numbers held after the first piece: its minors, under the major of the
      list it went to. */
  lemma FirstPlacedHolds(t: Table, lo: nat, count: nat, name: string, n: nat)
    requires lo < MINORS && count > 0 && HighestEmpty(t) >= 0
    ensures var k := n - HighestEmpty(t) * MINORS;
      Held(FirstPlaced(t, lo, count, name), n) <==> Held(t, n) || lo <= k < lo + FirstSize(lo, count)
  {
    var (s, d) := (HighestEmpty(t), Dev(HighestEmpty(t), lo, FirstSize(lo, count), name));
    assert t[s] == [] && d in [d];
    if n / MINORS == s {
      assert n % MINORS == n - s * MINORS;
    } else {
      assert !(0 <= n - s * MINORS < MINORS);
    }
  }

  /** From major 0, registration succeeds exactly when some list is empty, all
      majors exist, and the numbers from major 1 on are free once the first piece
      has taken its place. */
  lemma RegisteredLowIff(t: Table, lo: nat, count: nat, name: string)
    requires TableOk(t) && lo < MINORS && count > 0
    ensures Registered(t, lo, count, name).0 <==>
      && HighestEmpty(t) >= 0 && lo + count <= MAJORS * MINORS
      && forall n: nat :: MINORS <= n < lo + count ==> !Held(FirstPlaced(t, lo, count, name), n)
  {
    hide RegisteredFrom, Cut, Accepts, Held, Inserted, Unregistered, FirstPlaced;
    var hi := lo + count;
    FirstStep(t, lo, count, name);
    Ends(lo, count);
    if HighestEmpty(t) >= 0 {
      var t1 := FirstPlaced(t, lo, count, name);
      var (u, e) := RegisteredFrom(t1, lo, hi, name, 1);
      FirstPlacedOk(t, lo, count, name);
      RegisteredExtends(t1, lo, hi, name, 1);
      if e == End(hi) {
        forall n: nat | MINORS <= n < hi ensures !Held(t1, n) {
          AcceptsIffFree(t1, lo, hi, n / MINORS);
        }
      } else {
        AcceptsIffFree(t1, lo, hi, e);
      }
    }
  }

  lemma TableSize(t: Table)
    requires TableOk(t)
    ensures |t| == MAJORS
  {}

  /** Afterwards the numbers held are those held after the first piece and those
      of the range from major 1 on. */
  lemma RegisteredLowHolds(t: Table, lo: nat, count: nat, name: string, n: nat)
    requires TableOk(t) && lo < MINORS && count > 0 && Registered(t, lo, count, name).0
    ensures HighestEmpty(t) >= 0
    ensures Held(Registered(t, lo, count, name).1, n) <==>
      Held(FirstPlaced(t, lo, count, name), n) || MINORS <= n < lo + count
  {
    hide RegisteredFrom, Extended, Held, TableOk, Accepts, Cut, FirstPlaced;
    assert |t| == MAJORS by { TableSize(t); }
    FirstStep(t, lo, count, name);
    Ends(lo, count);
    var t1 := FirstPlaced(t, lo, count, name);
    RegisteredExtends(t1, lo, lo + count, name, 1);
    ExtendedHolds(t1, Registered(t, lo, count, name).1, lo, lo + count, name, 1, n);
  }

  /** Registration and unregistration keep every list ordered and disjoint. */
  lemma {:induction false} RegisteredFromOk(t: Table, lo: nat, hi: nat, name: string, m: nat)
    requires TableOk(t) && lo < hi && lo / MINORS <= m
    ensures TableOk(RegisteredFrom(t, lo, hi, name, m).0)
    decreases End(hi) - m
  {
    if m < End(hi) && Accepts(t, Cut(lo, hi, m)) {
      PlacedOk(t, Cut(lo, hi, m), name);
      RegisteredFromOk(Placed(t, Cut(lo, hi, m), name), lo, hi, name, m + 1);
    }
  }

  lemma {:induction false} UnregisteredFromOk(t: Table, lo: nat, hi: nat, m: nat)
    requires TableOk(t) && lo < hi && lo / MINORS <= m
    ensures TableOk(UnregisteredFrom(t, lo, hi, m))
    decreases End(hi) - m
  {
    if m < End(hi) {
      TakenOk(t, Cut(lo, hi, m));
      UnregisteredFromOk(Taken(t, Cut(lo, hi, m)), lo, hi, m + 1);
    }
  }

  /** Refused by a taken number of major 1 after its first piece went to list
      254: that piece stays behind. */
  lemma RollbackLeavesPiece(lo: nat, count: nat, name: string)
    requires lo < MINORS < lo + count
    ensures exists t :: TableOk(t) && !Registered(t, lo, count, name).0 && Registered(t, lo, count, name).1 != t
  {
    var hi := lo + count;
    var t: Table := seq(MAJORS, m => if m == 1 then [Dev(1, 0, 1, name)] else []);
    var (u, e) := RegisteredFrom(t, lo, hi, name, 0);
    CutMajor(lo, hi, 0);
    CutMajor(lo, hi, 1);
    var t1 := Placed(t, Cut(lo, hi, 0), name);
    assert t[MAJORS - 1] == [];
    assert HighestEmpty(t) == MAJORS - 1;
    assert t1[1] == [Dev(1, 0, 1, name)];
    assert Overlaps(t1[1][0], Cut(lo, hi, 1).base, Cut(lo, hi, 1).count);
    assert !Accepts(t1, Cut(lo, hi, 1));
    assert Accepts(t, Cut(lo, hi, 0)) && RegisteredFrom(t1, lo, hi, name, 1) == (t1, 1);
    RollbackIff(t, lo, count, name);
  }
}
