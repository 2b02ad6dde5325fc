/**
 * The device map of platform/fwk_kobjmap.c: a registered interval of device
 * numbers is entered in the bucket of every major it may reach, each bucket is
 * ordered by the length of the intervals, and a lookup takes the first interval
 * of one bucket that contains the number.
 */
module Kobjmap {
  import opened Common

  const BUCKETS: nat := 255
  const MINORS: nat := 0x10_0000
  const WORD: nat := 0x1_0000_0000
  const NULL: int := 0

  datatype Probe = Probe(devNum: nat, range: nat, data: int)

  predicate Contains(p: Probe, n: nat) {
    p.devNum <= n <= p.devNum + p.range - 1
  }

  // ------------------------------------------------- the flat specification

  /** The live registrations, newest first, and the best of them for a number:
      the shortest interval that contains it, the newest of equals. */
  function Best(live: seq<Probe>, n: nat): Option<Probe> {
    if live == [] then None
    else
      var r := Best(live[1..], n);
      if Contains(live[0], n) && (r.None? || live[0].range <= r.value.range) then Some(live[0]) else r
  }

  /** The newest registration of exactly this interval is taken out. */
  function Dropped(live: seq<Probe>, devNum: nat, range: nat): seq<Probe> {
    if live == [] then []
    else if live[0].devNum == devNum && live[0].range == range then live[1..]
    else [live[0]] + Dropped(live[1..], devNum, range)
  }

  /** What `Best` means, without recursion. */
  lemma {:induction false} BestIs(live: seq<Probe>, n: nat)
    ensures Best(live, n).None? <==> forall i :: 0 <= i < |live| ==> !Contains(live[i], n)
    ensures Best(live, n).Some? ==> exists i :: 0 <= i < |live| && Wins(live, n, i) && Best(live, n) == Some(live[i])
  {
    if live != [] {
      var rest := live[1..];
      BestIs(rest, n);
      assert forall i :: 0 < i < |live| ==> live[i] == rest[i - 1];
      if Best(live, n).Some? {
        var r := Best(rest, n);
        if Contains(live[0], n) && (r.None? || live[0].range <= r.value.range) {
          assert Wins(live, n, 0);
        } else {
          var i :| 0 <= i < |rest| && Wins(rest, n, i) && Best(rest, n) == Some(rest[i]);
          assert live[i + 1] == rest[i];
          assert Wins(live, n, i + 1);
        }
      }
    }
  }

  ghost predicate Wins(live: seq<Probe>, n: nat, i: nat)
    requires i < |live|
  {
    && Contains(live[i], n)
    && (forall j :: 0 <= j < i && Contains(live[j], n) ==> live[j].range > live[i].range)
    && (forall j :: i < j < |live| && Contains(live[j], n) ==> live[j].range >= live[i].range)
  }

  // -------------------------------------------------------------- one bucket

  function First(devNum: nat): nat {
    if BUCKETS < devNum / MINORS then BUCKETS else devNum / MINORS
  }

  function Count(devNum: nat, range: nat): (r: int)
    ensures 0 <= r <= BUCKETS - First(devNum)
    ensures r > 0 ==> First(devNum) + r - 1 <= (devNum + range) / MINORS
  {
    var first := First(devNum);
    var cnt := (devNum + range) / MINORS - first + 1;
    if first + cnt > BUCKETS then BUCKETS - first else cnt
  }

  /** An interval is entered in this bucket. */
  predicate Spans(devNum: nat, range: nat, m: nat) {
    First(devNum) <= m < First(devNum) + Count(devNum, range)
  }

  /** An interval is entered in the buckets of the majors from that of its first
      number to that of the number behind its last. */
  lemma SpansAre(devNum: nat, range: nat, m: nat)
    ensures Spans(devNum, range, m) <==> devNum / MINORS <= m <= (devNum + range) / MINORS && m < BUCKETS
  {}

  function Entered(bucket: seq<Probe>, p: Probe): seq<Probe> {
    if bucket == [] || bucket[0].range >= p.range then [p] + bucket
    else [bucket[0]] + Entered(bucket[1..], p)
  }

  /** The first interval of the bucket that contains the number. */
  function Hit(bucket: seq<Probe>, n: nat): Option<Probe> {
    if bucket == [] then None else if Contains(bucket[0], n) then Some(bucket[0]) else Hit(bucket[1..], n)
  }

  /** What the live registrations put in bucket `m`. */
  ghost function Bucket(live: seq<Probe>, m: nat): seq<Probe> {
    if live == [] then []
    else if Spans(live[0].devNum, live[0].range, m) then Entered(Bucket(live[1..], m), live[0])
    else Bucket(live[1..], m)
  }

  ghost predicate Ordered(bucket: seq<Probe>) {
    forall i, j :: 0 <= i < j < |bucket| ==> bucket[i].range <= bucket[j].range
  }

  lemma {:induction false} EnteredAt(bucket: seq<Probe>, p: Probe, k: nat)
    requires k <= |bucket| && (forall i :: 0 <= i < k ==> bucket[i].range < p.range)
    requires k < |bucket| ==> bucket[k].range >= p.range
    ensures Entered(bucket, p) == bucket[..k] + [p] + bucket[k..]
  {
    if k > 0 {
      EnteredAt(bucket[1..], p, k - 1);
    }
  }

  lemma {:induction false} EnteredOrdered(bucket: seq<Probe>, p: Probe)
    requires Ordered(bucket)
    ensures Ordered(Entered(bucket, p)) && (forall x :: x in Entered(bucket, p) <==> x in bucket || x == p)
  {
    if bucket != [] {
      assert bucket == [bucket[0]] + bucket[1..];
      if bucket[0].range < p.range {
        EnteredOrdered(bucket[1..], p);
        var r := Entered(bucket[1..], p);
        forall j | 0 <= j < |r| ensures bucket[0].range <= r[j].range {
          assert r[j] in r;
          if r[j] in bucket[1..] {
            var i :| 0 <= i < |bucket[1..]| && bucket[1..][i] == r[j];
            assert bucket[i + 1] == r[j];
          }
        }
      }
    }
  }

  lemma {:induction false} BucketOrdered(live: seq<Probe>, m: nat)
    ensures Ordered(Bucket(live, m))
  {
    if live != [] {
      BucketOrdered(live[1..], m);
      EnteredOrdered(Bucket(live[1..], m), live[0]);
    }
  }

  lemma {:induction false} HitRange(bucket: seq<Probe>, n: nat)
    requires Ordered(bucket) && bucket != []
    ensures Hit(bucket, n).Some? ==> Contains(Hit(bucket, n).value, n) && Hit(bucket, n).value.range >= bucket[0].range
  {
    if |bucket| > 1 && !Contains(bucket[0], n) {
      HitRange(bucket[1..], n);
    }
  }

  lemma {:induction false} HitEntered(bucket: seq<Probe>, p: Probe, n: nat)
    requires Ordered(bucket)
    ensures Hit(Entered(bucket, p), n) ==
      var r := Hit(bucket, n);
      if Contains(p, n) && (r.None? || p.range <= r.value.range) then Some(p) else r
  {
    if bucket != [] {
      HitRange(bucket, n);
      if bucket[0].range >= p.range {
        assert Entered(bucket, p)[1..] == bucket;
      } else {
        HitEntered(bucket[1..], p, n);
        assert Entered(bucket, p)[1..] == Entered(bucket[1..], p);
      }
    }
  }

  lemma SpansMajor(p: Probe, n: nat)
    requires Contains(p, n) && n / MINORS < BUCKETS
    ensures Spans(p.devNum, p.range, n / MINORS)
  {
    assert p.devNum / MINORS <= n / MINORS <= (p.devNum + p.range) / MINORS;
  }

  /** The first hit in the bucket of a number's major is the best of all live
      registrations. */
  lemma {:induction false} HitIsBest(live: seq<Probe>, n: nat)
    requires n / MINORS < BUCKETS
    ensures Hit(Bucket(live, n / MINORS), n) == Best(live, n)
  {
    if live != [] {
      var m := n / MINORS;
      HitIsBest(live[1..], n);
      BucketOrdered(live[1..], m);
      HitEntered(Bucket(live[1..], m), live[0], n);
      if Contains(live[0], n) {
        SpansMajor(live[0], n);
      }
    }
  }

  // --------------------------------------------------------------- removal

  lemma {:induction false} DroppedAt(list: seq<Probe>, devNum: nat, range: nat, k: nat)
    requires k <= |list| && forall i :: 0 <= i < k ==> !(list[i].devNum == devNum && list[i].range == range)
    requires k < |list| ==> list[k].devNum == devNum && list[k].range == range
    ensures Dropped(list, devNum, range) == if k < |list| then list[..k] + list[k + 1..] else list
  {
    if k > 0 {
      var rest := list[1..];
      DroppedAt(rest, devNum, range, k - 1);
      DroppedLater(list, devNum, range);
      hide Dropped;
      if k < |list| {
        CutLater(list, k);
      }
    }
  }

  lemma DroppedLater(list: seq<Probe>, devNum: nat, range: nat)
    requires list != [] && !(list[0].devNum == devNum && list[0].range == range)
    ensures Dropped(list, devNum, range) == [list[0]] + Dropped(list[1..], devNum, range)
    ensures list == [list[0]] + list[1..]
  {}

  lemma CutLater(list: seq<Probe>, k: nat)
    requires 0 < k < |list|
    ensures [list[0]] + (list[1..][..k - 1] + list[1..][k..]) == list[..k] + list[k + 1..]
  {}

  /** Entering an interval and taking out another commute; taking out the same
      undoes it. */
  lemma {:induction false} DroppedEntered(bucket: seq<Probe>, p: Probe, devNum: nat, range: nat)
    requires Ordered(bucket)
    ensures Dropped(Entered(bucket, p), devNum, range) ==
      if p.devNum == devNum && p.range == range then bucket else Entered(Dropped(bucket, devNum, range), p)
  {
    var e := Entered(bucket, p);
    if bucket == [] {
      assert [p][1..] == [];
    } else if bucket[0].range >= p.range {
      assert e[1..] == bucket && e[0] == p;
      if !(p.devNum == devNum && p.range == range) {
        DroppedHead(bucket, devNum, range);
      }
    } else {
      assert e[0] == bucket[0] && e[1..] == Entered(bucket[1..], p);
      assert bucket == [bucket[0]] + bucket[1..];
      DroppedEntered(bucket[1..], p, devNum, range);
      if !(bucket[0].devNum == devNum && bucket[0].range == range) {
        var d := Dropped(bucket, devNum, range);
        assert d[0] == bucket[0] && d[1..] == Dropped(bucket[1..], devNum, range);
      }
    }
  }

  lemma DroppedHead(bucket: seq<Probe>, devNum: nat, range: nat)
    requires Ordered(bucket) && bucket != []
    ensures var d := Dropped(bucket, devNum, range); d != [] ==> d[0].range >= bucket[0].range
  {
    if bucket[0].devNum == devNum && bucket[0].range == range && |bucket| > 1 {
      assert bucket[1..][0] == bucket[1];
    }
  }

  /** Unmapping in each bucket that the interval is entered in is unmapping in
      the flat list. */
  lemma {:induction false} BucketDropped(live: seq<Probe>, m: nat, devNum: nat, range: nat)
    ensures Bucket(Dropped(live, devNum, range), m) ==
      if Spans(devNum, range, m) then Dropped(Bucket(live, m), devNum, range) else Bucket(live, m)
  {
    if live != [] {
      BucketDropped(live[1..], m, devNum, range);
      BucketOrdered(live[1..], m);
      DroppedEntered(Bucket(live[1..], m), live[0], devNum, range);
      if !(live[0].devNum == devNum && live[0].range == range) {
        var d := Dropped(live, devNum, range);
        assert d[0] == live[0] && d[1..] == Dropped(live[1..], devNum, range);
      }
    }
  }

  // -------------------------------------------------------------- the table

  class Map {
    const probes: array<seq<Probe>>
    /** The live registrations, newest first. */
    ghost var live: seq<Probe>

    ghost predicate Valid()
      reads this, probes
    {
      probes.Length == BUCKETS && forall m :: 0 <= m < BUCKETS ==> probes[m] == Bucket(live, m)
    }

    constructor ()
      ensures fresh(probes) && Valid() && live == []
    {
      probes := new seq<Probe>[BUCKETS](i => []);
      live := [];
    }

    /** Enters an interval; a null `data` is refused. */
    method Register(devNum: nat, range: nat, data: int) returns (ok: bool)
      requires Valid() && range > 0 && devNum + range < WORD
      modifies this`live, probes
      ensures Valid() && (ok <==> data != NULL)
      ensures live == if ok then [Probe(devNum, range, data)] + old(live) else old(live)
    {
      hide Entered;
      if data == NULL {
        return false;
      }
      var p := Probe(devNum, range, data);
      var major := First(devNum);
      var majorCnt := Count(devNum, range);
      var i := 0;
      while i < majorCnt
        invariant 0 <= i <= majorCnt && live == old(live)
        invariant forall m :: 0 <= m < BUCKETS ==>
          probes[m] == if major <= m < major + i then Entered(old(probes[m]), p) else old(probes[m])
      {
        var index := (major + i) % BUCKETS;
        var dst := 0;
        var bucket := probes[index];
        while dst < |bucket| && bucket[dst].range < range
          invariant 0 <= dst <= |bucket| && forall k :: 0 <= k < dst ==> bucket[k].range < range
        {
          dst := dst + 1;
        }
        EnteredAt(bucket, p, dst);
        probes[index] := bucket[..dst] + [p] + bucket[dst..];
        i := i + 1;
      }
      assert ([p] + live)[1..] == live;
      live := [p] + live;
      return true;
    }

    /** Takes out the newest registration of exactly this interval. */
    method Unregister(devNum: nat, range: nat)
      requires Valid() && range > 0 && devNum + range < WORD
      modifies this`live, probes
      ensures Valid() && live == Dropped(old(live), devNum, range)
    {
      hide Dropped, Bucket;
      var major := First(devNum);
      var majorCnt := Count(devNum, range);
      var i := 0;
      while i < majorCnt
        invariant 0 <= i <= majorCnt && live == old(live)
        invariant forall m :: 0 <= m < BUCKETS ==>
          probes[m] == if major <= m < major + i then Dropped(old(probes[m]), devNum, range) else old(probes[m])
      {
        var index := (major + i) % BUCKETS;
        var dst := 0;
        var bucket := probes[index];
        while dst < |bucket|
          invariant 0 <= dst <= |bucket|
          invariant forall k :: 0 <= k < dst ==> !(bucket[k].devNum == devNum && bucket[k].range == range)
        {
          if bucket[dst].devNum == devNum && bucket[dst].range == range {
            break;
          }
          dst := dst + 1;
        }
        DroppedAt(bucket, devNum, range, dst);
        if dst < |bucket| {
          probes[index] := bucket[..dst] + bucket[dst + 1..];
        }
        i := i + 1;
      }
      forall m: nat | m < BUCKETS ensures probes[m] == Bucket(Dropped(live, devNum, range), m) {
        BucketDropped(live, m, devNum, range);
      }
      live := Dropped(live, devNum, range);
    }

    /** The data of the shortest live interval that contains the number, the
        newest of equals, or null. */
    method Lookup(devNum: nat) returns (data: int)
      requires Valid() && devNum / MINORS < BUCKETS
      ensures data == match Best(live, devNum) case None => NULL case Some(p) => p.data
    {
      hide Best, Bucket;
      HitIsBest(live, devNum);
      var index := devNum / MINORS;
      var bucket := probes[index % BUCKETS];
      var i := 0;
      while i < |bucket|
        invariant 0 <= i <= |bucket| && Hit(bucket, devNum) == Hit(bucket[i..], devNum)
      {
        if devNum >= bucket[i].devNum && devNum <= bucket[i].devNum + bucket[i].range - 1 {
          return bucket[i].data;
        }
        assert bucket[i..][1..] == bucket[i + 1..];
        i := i + 1;
      }
      return NULL;
    }
  }
}
