/**
 * The table of platform/chardev/fwk_chrdev.c as it is edited: an array with one
 * list of devices per major number.
 */
module ChrdevTable {
  import opened Common
  import opened Chrdev

  class Registry {
    const table: array<seq<Dev>>

    ghost predicate Valid()
      reads this, table
    {
      table.Length == MAJORS && TableOk(table[..])
    }

    constructor ()
      ensures fresh(table) && Valid() && forall m :: 0 <= m < MAJORS ==> table[m] == []
    {
      table := new seq<Dev>[MAJORS](i => []);
    }

    /** The dynamic major: the highest one with an empty list. */
    method FreeMajor() returns (i: int)
      ensures i == HighestEmpty(table[..])
    {
      i := table.Length - 1;
      while i >= 0
        invariant -1 <= i < table.Length
        invariant HighestEmpty(table[..]) == HighestEmpty(table[..i + 1])
      {
        assert table[..i + 1][..i] == table[..i];
        if table[i] == [] {
          return;
        }
        i := i - 1;
      }
    }

    /** Registers one interval; succeeds exactly when the table accepts it. */
    method RegisterOne(major: nat, base: nat, count: nat, name: string) returns (r: Option<Dev>)
      requires Valid() && base + count <= WORD
      modifies table
      ensures Valid()
      ensures r.Some? <==> Accepts(old(table[..]), Piece(major, base, count))
      ensures table[..] == if r.Some? then Placed(old(table[..]), Piece(major, base, count), name) else old(table[..])
      ensures r.Some? ==> r.value == Dev(Slot(old(table[..]), major), base, count, name)
    {
      hide Inserted, Position, HighestEmpty, Ranked;
      ghost var t := table[..];
      if count == 0 {
        return None;
      }
      var index := major;
      if major == 0 {
        var i := FreeMajor();
        if i < 0 {
          return None;
        }
        index := i;
      }
      if index >= MAJORS {
        return None;
      }
      assert index == Slot(t, major);
      var dev := Dev(index, base, count, name);
      var dst := 0;
      var list := table[index];
      while dst < |list|
        invariant 0 <= dst <= |list|
        invariant forall k :: 0 <= k < dst ==> !(list[k].base >= base || list[k].base + list[k].count - 1 >= base)
      {
        if list[dst].base >= base || list[dst].base + list[dst].count - 1 >= base {
          break;
        }
        dst := dst + 1;
      }
      PositionIs(list, base, dst);
      OverlapDecided(list, base, count);
      if dst < |list| {
        var first, last := list[dst].base, list[dst].base + list[dst].count - 1;
        if base <= last && base + count - 1 >= first {
          return None;
        }
      }
      table[index] := list[..dst] + [dev] + list[dst..];
      InsertedIs(list, dev, dst);
      assert table[..] == Placed(t, Piece(major, base, count), name);
      PlacedOk(t, Piece(major, base, count), name);
      return Some(dev);
    }

    /** Takes out the interval that is exactly the one given. */
    method UnregisterOne(major: nat, base: nat, count: nat)
      requires Valid() && count > 0
      modifies table
      ensures Valid() && table[..] == Taken(old(table[..]), Piece(major, base, count))
    {
      hide Exact, Ranked;
      ghost var t := table[..];
      TakenOk(t, Piece(major, base, count));
      if major >= MAJORS {
        return;
      }
      var list := table[major];
      var dst := 0;
      while dst < |list|
        invariant 0 <= dst <= |list|
        invariant forall k :: 0 <= k < dst ==> !(list[k].base == base && list[k].count == count)
      {
        if base == list[dst].base && count == list[dst].count {
          ExactIs(list, base, count, dst);
          table[major] := list[..dst] + list[dst + 1..];
          assert table[..] == Taken(t, Piece(major, base, count));
          return;
        }
        dst := dst + 1;
      }
      ExactIs(list, base, count, dst);
      assert table[..] == Taken(t, Piece(major, base, count));
    }

    /** The first number of the next major, in 32 bits. */
    function NextMajor(n: nat): nat {
      (n / MINORS + 1) * MINORS % WORD
    }

    /** Registers a range of device numbers, which may span majors; if one of
        its pieces is refused, takes back those before it. */
    method Register(devNum: nat, count: nat, name: string) returns (ok: bool)
      requires Valid() && devNum + count < WORD
      modifies table
      ensures Valid()
      ensures ok == Registered(old(table[..]), devNum, count, name).0
      ensures table[..] == Registered(old(table[..]), devNum, count, name).1
    {
      hide TableOk, Accepts, Placed, Unregistered, RegisteredFrom, Cut;
      ghost var t := table[..];
      ghost var m: nat := devNum / MINORS;
      var last := devNum + count;
      var n := devNum;
      while n < last
        invariant Valid() && At(devNum, last, n, m)
        invariant count > 0 ==> RegisteredFrom(t, devNum, last, name, devNum / MINORS)
                                == RegisteredFrom(table[..], devNum, last, name, m)
        invariant count == 0 ==> table[..] == t
        decreases last - n
      {
        var major := n / MINORS;
        var next := NextMajor(n);
        next := if last < next then last else next;
        var size := (next - n) % WORD;
        NextPiece(devNum, last, n, m, next);
        RegisteredNext(table[..], devNum, last, name, m);
        Refused(table[..], Piece(major, n % MINORS, size), Cut(devNum, last, m));
        var r := RegisterOne(major, n % MINORS, size, name);
        if r.None? {
          Stopped(t, table[..], devNum, last, name, n, m);
          Unregister(devNum, n - devNum);
          return false;
        }
        n := next;
        m := m + 1;
      }
      if count > 0 {
        RegisteredNext(table[..], devNum, last, name, m);
      }
      return true;
    }

    /** Unregisters a range of device numbers, piece by piece. Beyond major 4094
        the next number would wrap round to 0. */
    method Unregister(devNum: nat, count: nat)
      requires Valid() && (count == 0 || devNum + count <= WORD - MINORS)
      modifies table
      ensures Valid() && table[..] == Unregistered(old(table[..]), devNum, count)
    {
      hide TableOk, Taken, UnregisteredFrom, Cut;
      ghost var t := table[..];
      ghost var m: nat := devNum / MINORS;
      var last := devNum + count;
      var n := devNum;
      while n < last
        invariant Valid() && At(devNum, last, n, m)
        invariant count > 0 ==> UnregisteredFrom(t, devNum, last, devNum / MINORS)
                                == UnregisteredFrom(table[..], devNum, last, m)
        invariant count == 0 ==> table[..] == t
        decreases last - n
      {
        var major := n / MINORS;
        var next := NextMajor(n);
        next := if last < next then last else next;
        NextPiece(devNum, last, n, m, next);
        UnregisteredNext(table[..], devNum, last, m);
        UnregisterOne(major, n % MINORS, next - n);
        n := next;
        m := m + 1;
      }
      if count > 0 {
        UnregisteredNext(table[..], devNum, last, m);
      }
    }
  }

  // ------------------------------------------------- positions in the lists

  lemma PositionIs(list: seq<Dev>, base: nat, p: nat)
    requires p <= |list|
    requires forall k :: 0 <= k < p ==> !(list[k].base >= base || list[k].base + list[k].count - 1 >= base)
    requires p < |list| ==> list[p].base >= base || list[p].base + list[p].count - 1 >= base
    ensures Position(list, base) == p
  {
    var q := Position(list, base);
    if q < p {} else if p < q {}
  }

  lemma InsertedIs(list: seq<Dev>, d: Dev, p: nat)
    requires p == Position(list, d.base)
    ensures Inserted(list, d) == list[..p] + [d] + list[p..]
  {}

  lemma ExactIs(list: seq<Dev>, base: nat, count: nat, p: nat)
    requires p <= |list|
    requires forall k :: 0 <= k < p ==> !(list[k].base == base && list[k].count == count)
    requires p < |list| ==> list[p].base == base && list[p].count == count
    ensures Exact(list, base, count) == p
  {
    var q := Exact(list, base, count);
    if q < p {} else if p < q {}
  }

  // -------------------------------------------------- the loops over majors

  /** The loops stand at `n`, the start of the piece of major `m`, or at the
      end. */
  ghost predicate At(lo: nat, hi: nat, n: nat, m: nat) {
    && lo <= n <= hi && lo / MINORS <= m
    && (n < hi ==> m == n / MINORS < End(hi) && (if m == lo / MINORS then n == lo else n == m * MINORS))
    && (n == hi > lo ==> m == End(hi))
  }

  lemma NextPiece(lo: nat, hi: nat, n: nat, m: nat, next: nat)
    requires At(lo, hi, n, m) && n < hi < WORD
    requires var major := (n / MINORS + 1) * MINORS % WORD; next == if hi < major then hi else major
    ensures Cut(lo, hi, m).major == m && m < 4096 && (m == 4095 ==> hi > WORD - MINORS)
    ensures n % MINORS + (next - n) % WORD <= WORD && (next - n) % WORD > 0
    ensures m < 4095 ==> next - n == (next - n) % WORD && At(lo, hi, next, m + 1)
    ensures m < 4095 ==> Cut(lo, hi, m) == Piece(m, n % MINORS, next - n)
  {
    if m < 4095 {
      assert (m + 1) * MINORS < WORD;
      assert (m + 1) * MINORS % WORD == (m + 1) * MINORS;
    } else {
      assert m == 4095;
      assert next == 0;
      assert (0 - n) % WORD == WORD - n;
    }
  }

  /** Beyond the table both pieces are refused. */
  lemma Refused(t: Table, c: Piece, d: Piece)
    requires |t| == MAJORS && c.major == d.major && (c.major < 4095 ==> c == d)
    ensures Accepts(t, c) == Accepts(t, d)
    ensures c.major >= MAJORS ==> !Accepts(t, c)
  {}

  lemma RegisteredNext(t: Table, lo: nat, hi: nat, name: string, m: nat)
    requires lo < hi && lo / MINORS <= m
    ensures RegisteredFrom(t, lo, hi, name, m) ==
      if m < End(hi) && Accepts(t, Cut(lo, hi, m)) then
        RegisteredFrom(Placed(t, Cut(lo, hi, m), name), lo, hi, name, m + 1)
      else (t, m)
  {}

  lemma UnregisteredNext(t: Table, lo: nat, hi: nat, m: nat)
    requires lo < hi && lo / MINORS <= m
    ensures UnregisteredFrom(t, lo, hi, m) ==
      if m < End(hi) then UnregisteredFrom(Taken(t, Cut(lo, hi, m)), lo, hi, m + 1) else t
  {}

  /** Registration has stopped before its end: what it got through ends at
      `n`. */
  lemma Stopped(t: Table, u: Table, lo: nat, hi: nat, name: string, n: nat, m: nat)
    requires At(lo, hi, n, m) && n < hi && RegisteredFrom(t, lo, hi, name, lo / MINORS) == (u, m)
    ensures Registered(t, lo, hi - lo, name) == (false, Unregistered(u, lo, n - lo))
  {
    hide RegisteredFrom, Unregistered;
    assert Reached(lo, m) == n - lo;
  }
}
