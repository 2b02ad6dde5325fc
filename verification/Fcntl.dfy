/**
 * The file descriptor table of platform/fwk_fcntl.c, in the runs that stay
 * within its 32 base slots: first as a value, then as the table itself.
 */
module Fcntl {

  const SLOTS: nat := 32
  /** Descriptors 0, 1 and 2 are taken from the start. */
  const STDIO: nat := 3
  const NULL: int := 0

  /** The slots, the highest number in use at most, and the number in use. */
  datatype Fds = Fds(slots: seq<int>, top: int, refs: int)

  function Used(slots: seq<int>): (n: nat)
    ensures n <= |slots|
  {
    if slots == [] then 0 else Used(slots[..|slots| - 1]) + if slots[|slots| - 1] != NULL then 1 else 0
  }

  ghost predicate Inv(s: Fds) {
    && |s.slots| == SLOTS && s.refs == Used(s.slots) && s.top < SLOTS
    && (forall i :: 0 <= i < STDIO ==> s.slots[i] != NULL)
    && (forall i :: 0 <= i < SLOTS && s.slots[i] != NULL ==> i <= s.top)
    && (s.top == SLOTS - 1 ==> s.slots[SLOTS - 1] != NULL)
  }

  // ------------------------------------------------------------ the counting

  lemma {:induction false} UsedChanges(slots: seq<int>, i: nat, file: int)
    requires i < |slots|
    ensures Used(slots[i := file]) ==
      Used(slots) - (if slots[i] != NULL then 1 else 0) + if file != NULL then 1 else 0
  {
    var n := |slots| - 1;
    if i < n {
      UsedChanges(slots[..n], i, file);
      assert slots[i := file][..n] == slots[..n][i := file];
    } else {
      assert slots[i := file][..n] == slots[..n];
    }
  }

  /** Pigeonhole: a table that is not full has an empty slot. */
  lemma {:induction false} EmptySlot(slots: seq<int>) returns (i: nat)
    requires Used(slots) < |slots|
    ensures i < |slots| && slots[i] == NULL
  {
    var n := |slots| - 1;
    if slots[n] == NULL {
      i := n;
    } else {
      i := EmptySlot(slots[..n]);
    }
  }

  lemma {:induction false} AllUsed(slots: seq<int>)
    requires forall i :: 0 <= i < |slots| ==> slots[i] != NULL
    ensures Used(slots) == |slots|
  {
    if slots != [] {
      AllUsed(slots[..|slots| - 1]);
    }
  }

  lemma {:induction false} FirstUsed(slots: seq<int>, n: nat)
    requires n <= |slots|
    requires forall i :: 0 <= i < n ==> slots[i] != NULL
    ensures Used(slots) >= n
  {
    if n == |slots| {
      AllUsed(slots);
    } else {
      FirstUsed(slots[..|slots| - 1], n);
    }
  }

  // ---------------------------------------------------------- the operations

  /** The first empty slot. */
  function FirstEmpty(slots: seq<int>): (i: nat)
    ensures i <= |slots| && (i < |slots| ==> slots[i] == NULL)
    ensures forall k :: 0 <= k < i ==> slots[k] != NULL
  {
    if slots == [] || slots[0] == NULL then 0 else FirstEmpty(slots[1..]) + 1
  }

  /** The descriptor that the next open gets: one above the highest, and only
      when there is none the first empty one. */
  function Pick(s: Fds): int {
    if s.top + 1 < SLOTS then s.top + 1 else FirstEmpty(s.slots)
  }

  /** The table while `Pick(s)` is reserved but not installed. */
  function Reserved(s: Fds): Fds {
    s.(top := if s.top + 1 < SLOTS then s.top + 1 else s.top, refs := if s.refs < SLOTS then s.refs + 1 else SLOTS)
  }

  function Opened(s: Fds, file: int): Fds
    requires 0 <= Pick(s) < |s.slots|
  {
    Reserved(s).(slots := s.slots[Pick(s) := file])
  }

  function Put(s: Fds, fd: nat): Fds
    requires fd < |s.slots|
  {
    Fds(s.slots[fd := NULL], if s.top > fd then s.top else fd - 1, if s.refs > STDIO then s.refs - 1 else STDIO)
  }

  /** The file of a descriptor; the standard ones cannot be reached. */
  function FileOf(s: Fds, fd: int): int
    requires |s.slots| == SLOTS && fd < SLOTS
  {
    if fd < STDIO then NULL else s.slots[fd]
  }

  function Closed(s: Fds, fd: int): Fds
    requires |s.slots| == SLOTS && fd < SLOTS
  {
    if FileOf(s, fd) == NULL then s else Put(s, fd)
  }

  /** When a slot is free the one picked is, and it is not a standard one: the
      search below the highest descriptor never comes back empty-handed. */
  lemma PickIsFree(s: Fds)
    requires Inv(s) && s.refs < SLOTS
    ensures STDIO <= Pick(s) < SLOTS && s.slots[Pick(s)] == NULL
    ensures s.top + 1 >= SLOTS ==> Pick(s) < s.top
    ensures s.refs >= STDIO && s.top >= STDIO - 1
  {
    FirstUsed(s.slots, STDIO);
    assert s.slots[STDIO - 1] != NULL;
    if s.top + 1 >= SLOTS {
      var i := EmptySlot(s.slots);
      assert i != SLOTS - 1;
    }
  }

  lemma OpenedInv(s: Fds, file: int)
    requires Inv(s) && s.refs < SLOTS && file != NULL
    ensures 0 <= Pick(s) < SLOTS && Inv(Opened(s, file))
  {
    PickIsFree(s);
    UsedChanges(s.slots, Pick(s), file);
  }

  lemma ClosedInv(s: Fds, fd: int)
    requires Inv(s) && fd < SLOTS
    ensures Inv(Closed(s, fd))
  {
    if FileOf(s, fd) != NULL {
      UsedChanges(s.slots, fd, NULL);
      FirstUsed(s.slots[fd := NULL], STDIO);
    }
  }

  /** Giving a reserved descriptor back restores the table exactly. */
  lemma ReservedThenPut(s: Fds)
    requires Inv(s) && s.refs < SLOTS
    ensures 0 <= Pick(s) < SLOTS && Put(Reserved(s), Pick(s)) == s
  {
    PickIsFree(s);
    assert s.slots[Pick(s) := NULL] == s.slots;
  }

  /** Closing what was just opened restores the table exactly. */
  lemma OpenThenClose(s: Fds, file: int)
    requires Inv(s) && s.refs < SLOTS && file != NULL
    ensures 0 <= Pick(s) < SLOTS && Closed(Opened(s, file), Pick(s)) == s
  {
    PickIsFree(s);
    assert s.slots[Pick(s) := file][Pick(s) := NULL] == s.slots;
  }

  /** The next descriptor is the one above the highest, above all in use; only when
      there is none is it the lowest empty one. Opening raises the highest to it. */
  lemma PickIs(s: Fds, file: int)
    requires Inv(s) && s.refs < SLOTS
    ensures s.top < SLOTS - 1 ==> Pick(s) == s.top + 1 && forall i :: 0 <= i < SLOTS && s.slots[i] != NULL ==> i < Pick(s)
    ensures s.top == SLOTS - 1 ==> forall i :: 0 <= i < Pick(s) && i < SLOTS ==> s.slots[i] != NULL
    ensures 0 <= Pick(s) < SLOTS && s.slots[Pick(s)] == NULL
    ensures Opened(s, file).top == if Pick(s) > s.top then Pick(s) else s.top
    ensures forall i :: 0 <= i < SLOTS ==> Opened(s, file).slots[i] == if i == Pick(s) then file else s.slots[i]
  {
    PickIsFree(s);
  }

  /** Closing a live descriptor empties its slot and no other; the highest stays
      unless it was that, and so the number the next open returns is decided. */
  lemma NextAfterClose(s: Fds, fd: nat)
    requires Inv(s) && STDIO <= fd < SLOTS && s.slots[fd] != NULL
    ensures var t := Closed(s, fd);
      && (forall i :: 0 <= i < SLOTS ==> t.slots[i] == if i == fd then NULL else s.slots[i])
      && t.top == (if fd < s.top then s.top else fd - 1) && t.refs == s.refs - 1
      && (fd == s.top ==> Pick(t) == fd)
      && (fd < s.top < SLOTS - 1 ==> Pick(t) == s.top + 1)
      && (fd < s.top == SLOTS - 1 ==> Pick(t) <= fd && forall i :: 0 <= i < Pick(t) ==> s.slots[i] != NULL)
  {
    ClosedInv(s, fd);
    UsedChanges(s.slots, fd, NULL);
    FirstUsed(s.slots[fd := NULL], STDIO);
  }

  /** Closing any other number changes nothing. */
  lemma ClosedNothing(s: Fds, fd: int)
    requires Inv(s) && fd < SLOTS && (fd < STDIO || s.slots[fd] == NULL)
    ensures Closed(s, fd) == s
  {}

  // ------------------------------------------------------------------- runs

  /** An open that finds no file gives NULL. */
  datatype Op = Open(file: int) | Close(fd: int)

  predicate Enabled(s: Fds, op: Op) {
    match op
    case Open(_) => s.refs < SLOTS
    case Close(fd) => fd < SLOTS
  }

  ghost function Step(s: Fds, op: Op): (t: Fds)
    requires Inv(s) && Enabled(s, op)
    ensures Inv(t)
  {
    match op
    case Open(file) => if file == NULL then s else (OpenedInv(s, file); Opened(s, file))
    case Close(fd) => ClosedInv(s, fd); Closed(s, fd)
  }

  ghost predicate Legal(s: Fds, ops: seq<Op>)
    requires Inv(s)
    decreases |ops|
  {
    ops == [] || (Enabled(s, ops[0]) && Legal(Step(s, ops[0]), ops[1..]))
  }

  /** A run within the base table; every state of it keeps the invariant. */
  ghost function Run(s: Fds, ops: seq<Op>): (t: Fds)
    requires Inv(s) && Legal(s, ops)
    ensures Inv(t)
    decreases |ops|
  {
    if ops == [] then s else Run(Step(s, ops[0]), ops[1..])
  }

  /** A descriptor resolves to the file it was opened for until it is closed;
      no open in between is given its number. */
  lemma {:induction false} RunKeepsFile(s: Fds, ops: seq<Op>, fd: nat)
    requires Inv(s) && Legal(s, ops) && fd < SLOTS && FileOf(s, fd) != NULL && Close(fd) !in ops
    ensures FileOf(Run(s, ops), fd) == FileOf(s, fd)
    decreases |ops|
  {
    if ops != [] {
      if ops[0].Open? && ops[0].file != NULL {
        PickIsFree(s);
      }
      RunKeepsFile(Step(s, ops[0]), ops[1..], fd);
    }
  }

  /** The successful opens of a run less its effective closes. */
  ghost function Balance(s: Fds, ops: seq<Op>): int
    requires Inv(s) && Legal(s, ops)
    decreases |ops|
  {
    if ops == [] then 0
    else Balance(Step(s, ops[0]), ops[1..]) +
         match ops[0]
         case Open(file) => if file != NULL then 1 else 0
         case Close(fd) => if FileOf(s, fd) != NULL then -1 else 0
  }

  /** The count of descriptors in use is conserved over every run. */
  lemma {:induction false} RunBalances(s: Fds, ops: seq<Op>)
    requires Inv(s) && Legal(s, ops)
    ensures Run(s, ops).refs == s.refs + Balance(s, ops)
    decreases |ops|
  {
    if ops != [] {
      RunBalances(Step(s, ops[0]), ops[1..]);
      if ops[0].Close? && FileOf(s, ops[0].fd) != NULL {
        FirstUsed(s.slots[ops[0].fd := NULL], STDIO);
        UsedChanges(s.slots, ops[0].fd, NULL);
      }
    }
  }

  // --------------------------------------------------------------- the table

  class FileTable {
    const fdArray: array<int>
    const maxFdarr: int := SLOTS
    var maxFdset: int
    var refFdarr: int

    ghost function State(): Fds
      reads this, fdArray
    {
      Fds(fdArray[..], maxFdset, refFdarr)
    }

    ghost predicate Valid()
      reads this, fdArray
    {
      fdArray.Length == SLOTS && Inv(State())
    }

    constructor (stdio: seq<int>)
      requires |stdio| == STDIO && NULL !in stdio
      ensures Valid() && fresh(fdArray)
      ensures maxFdset == STDIO - 1 && forall i :: 0 <= i < STDIO ==> fdArray[i] == stdio[i]
      ensures refFdarr == STDIO && forall fd :: 0 <= fd < SLOTS ==> FileOf(State(), fd) == NULL
    {
      fdArray := new int[SLOTS](i requires 0 <= i => if i < STDIO then stdio[i] else NULL);
      refFdarr := STDIO;
      maxFdset := STDIO - 1;
      new;
      UsedStart(fdArray[..]);
    }

    method GetUnusedFd() returns (fd: int)
      requires Valid() && refFdarr < SLOTS
      modifies this
      ensures State() == Reserved(old(State())) && fd == Pick(old(State()))
    {
      PickIsFree(State());
      if maxFdset + 1 < maxFdarr {
        fd := maxFdset + 1;
        maxFdset := maxFdset + 1;
        CountUp();
        return;
      }
      var index := 0;
      while index < maxFdset
        invariant 0 <= index <= maxFdset && forall k :: 0 <= k < index ==> fdArray[k] != NULL
      {
        if fdArray[index] == NULL {
          fd := index;
          CountUp();
          return;
        }
        index := index + 1;
      }
      assert false;
    }

    method CountUp()
      modifies this`refFdarr
      ensures refFdarr == if old(refFdarr) < SLOTS then old(refFdarr) + 1 else SLOTS
    {
      refFdarr := if refFdarr < maxFdarr then refFdarr + 1 else maxFdarr;
    }

    method PutUsedFd(fd: int)
      requires fdArray.Length == SLOTS && fd < SLOTS
      modifies this, fdArray
      ensures State() == if fd < STDIO then old(State()) else Put(old(State()), fd)
    {
      if fd < STDIO {
        return;
      }
      fdArray[fd] := NULL;
      maxFdset := if maxFdset > fd then maxFdset else fd - 1;
      refFdarr := if refFdarr > STDIO then refFdarr - 1 else STDIO;
      assert fdArray[..] == old(fdArray[..])[fd := NULL];
    }

    method Install(fd: int, file: int) returns (ok: bool)
      requires fdArray.Length == SLOTS && fd < SLOTS
      modifies fdArray
      ensures ok <==> fd >= STDIO && file != NULL && old(fdArray[..])[fd] == NULL
      ensures fdArray[..] == if ok then old(fdArray[..])[fd := file] else old(fdArray[..])
    {
      if fd < STDIO || file == NULL {
        return false;
      }
      if fdArray[fd] != NULL {
        return false;
      }
      fdArray[fd] := file;
      return true;
    }

    method ToFile(fd: int) returns (file: int)
      requires Valid() && fd < SLOTS
      ensures file == FileOf(State(), fd)
    {
      if fd < STDIO {
        return NULL;
      }
      return fdArray[fd];
    }

    /** Opens the file, NULL standing for one that cannot be opened. Given a free
        slot it fails exactly then, and leaves the table as it was. */
    method Open(file: int) returns (fd: int)
      requires Valid() && Enabled(State(), Op.Open(file))
      modifies this, fdArray
      ensures Valid() && State() == Step(old(State()), Op.Open(file))
      ensures fd >= 0 <==> file != NULL
      ensures fd >= 0 ==> STDIO <= fd < SLOTS && old(fdArray[..])[fd] == NULL && FileOf(State(), fd) == file
    {
      hide Inv, Pick, Used;
      ghost var s := State();
      PickIsFree(s);
      ReservedThenPut(s);
      fd := GetUnusedFd();
      if file == NULL {
        PutUsedFd(fd);
        return -1;
      }
      OpenedInv(s, file);
      var ok := Install(fd, file);
      assert ok;
    }

    method Close(fd: int)
      requires Valid() && Enabled(State(), Op.Close(fd))
      modifies this, fdArray
      ensures Valid() && State() == Step(old(State()), Op.Close(fd))
    {
      ClosedInv(State(), fd);
      var file := ToFile(fd);
      if file == NULL {
        return;
      }
      PutUsedFd(fd);
    }
  }

  lemma {:induction false} NoneUsed(slots: seq<int>, n: nat)
    requires n <= |slots|
    requires (forall i :: 0 <= i < n ==> slots[i] != NULL) && forall i :: n <= i < |slots| ==> slots[i] == NULL
    ensures Used(slots) == n
  {
    if n == |slots| {
      AllUsed(slots);
    } else {
      NoneUsed(slots[..|slots| - 1], n);
    }
  }

  lemma UsedStart(slots: seq<int>)
    requires |slots| == SLOTS && forall i :: 0 <= i < SLOTS ==> (slots[i] != NULL <==> i < STDIO)
    ensures Used(slots) == STDIO
  {
    NoneUsed(slots, STDIO);
  }
}
