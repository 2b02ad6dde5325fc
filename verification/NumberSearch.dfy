/**
 * The search for a run of free interrupt numbers, in
 * platform/irq/fwk_irq_desc.c.
 *
 * The search wants `nr` clear bits in a row that stop short of the last bit of
 * the map. It scans upward; a candidate too close to the end is reported by -1,
 * which the unsigned index turns into a restart from 0.
 */
module NumberSearch {
  import opened Bitmap

  const MORE: int := -10

  /** The numbers below this have room for `nr` bits before the last one. */
  function Limit(bits: seq<bool>, nr: nat): int {
    |bits| - nr
  }

  ghost predicate Fits(bits: seq<bool>, r: int, nr: nat) {
    0 <= r < Limit(bits, nr) && forall i :: r <= i < r + nr ==> !bits[i]
  }

  /** The bitmap's last bit is never handed out. */
  ghost predicate Usable(bits: seq<bool>) {
    bits != [] && !bits[|bits| - 1]
  }

  function FirstClear(bits: seq<bool>, x: nat): (z: nat)
    requires x < |bits| && !bits[|bits| - 1]
    ensures x <= z < |bits| && !bits[z]
    ensures forall i :: x <= i < z ==> bits[i]
    decreases |bits| - x
  {
    if !bits[x] then x else FirstClear(bits, x + 1)
  }

  /** The first set bit of [x, stop), or `stop`. */
  function FirstSet(bits: seq<bool>, x: nat, stop: nat): (t: nat)
    requires x <= stop <= |bits|
    ensures x <= t <= stop && (t < stop ==> bits[t])
    ensures forall i :: x <= i < t ==> !bits[i]
    decreases stop - x
  {
    if x == stop || bits[x] then x else FirstSet(bits, x + 1, stop)
  }

  /** One pass of the search loop from an index. */
  datatype Outcome = Found(number: nat) | Full | Again(index: nat)

  function Pass(bits: seq<bool>, nr: nat, x: nat): Outcome
    requires bits != [] && !bits[|bits| - 1]
  {
    if x + nr >= |bits| then Full
    else
      var z := FirstClear(bits, x);
      if z + nr >= |bits| then Again(0)
      else
        var t := FirstSet(bits, z, z + nr);
        if t == z + nr then Found(z) else Again(t + 1)
  }

  /** The search up to its first restart: what it finds, or that it restarts. */
  datatype Result = Hit(number: nat) | Miss | Restart

  function Scan(bits: seq<bool>, nr: nat, x: nat): (r: Result)
    requires bits != [] && !bits[|bits| - 1]
    decreases |bits| - x
  {
    if x + nr >= |bits| then Miss
    else
      var z := FirstClear(bits, x);
      if z + nr >= |bits| then Restart
      else
        var t := FirstSet(bits, z, z + nr);
        if t == z + nr then Hit(z) else Scan(bits, nr, t + 1)
  }

  /** The bits below the limit end in a run of set bits that the scan from `x`
      walks into. */
  predicate EndsInRun(bits: seq<bool>, nr: nat, x: nat) {
    var limit := Limit(bits, nr);
    x < limit && bits[limit - 1] && (x == limit - 1 || bits[limit - 2])
  }

  /** The scan hits the lowest fitting number from `x` on if there is one;
      otherwise it restarts exactly when the bits end in a run. */
  lemma {:induction false} ScanExact(bits: seq<bool>, nr: nat, x: nat)
    requires Usable(bits) && nr > 0
    ensures var r := Scan(bits, nr, x);
      && (r.Hit? ==> r.number >= x && Fits(bits, r.number, nr) && forall s :: x <= s < r.number ==> !Fits(bits, s, nr))
      && (!r.Hit? ==> forall s :: x <= s ==> !Fits(bits, s, nr))
      && (!r.Hit? ==> (r.Restart? <==> EndsInRun(bits, nr, x)))
    decreases |bits| - x
  {
    hide FirstClear, FirstSet;
    if x + nr < |bits| {
      var z := FirstClear(bits, x);
      forall s | x <= s < z ensures !Fits(bits, s, nr) {
        assert bits[s];
      }
      if z + nr < |bits| {
        var t := FirstSet(bits, z, z + nr);
        if t < z + nr {
          forall s | z <= s <= t ensures !Fits(bits, s, nr) {
            assert s <= t < s + nr;
          }
          ScanExact(bits, nr, t + 1);
        }
      }
    }
  }

  /** The search from `x` comes to an end: the condition can be read off the
      bitmap before the call. */
  ghost predicate Halts(bits: seq<bool>, nr: nat, x: nat) {
    || (exists r :: Fits(bits, r, nr))
    || !EndsInRun(bits, nr, x)
    || !EndsInRun(bits, nr, 0)
  }

  /** The search after at most `n` passes. */
  function Search(bits: seq<bool>, nr: nat, x: nat, n: nat): Outcome
    requires bits != [] && !bits[|bits| - 1]
    decreases n
  {
    if n == 0 then Again(x)
    else match Pass(bits, nr, x)
      case Again(y) => Search(bits, nr, y, n - 1)
      case o => o
  }

  /** The search ends if and only if `Halts`. */
  lemma SearchEndsIff(bits: seq<bool>, nr: nat, x: nat)
    requires Usable(bits) && nr > 0
    ensures (exists n :: !Search(bits, nr, x, n).Again?) <==> Halts(bits, nr, x)
  {
    ScanExact(bits, nr, x);
    ScanExact(bits, nr, 0);
    if Scan(bits, nr, x).Restart? {
      if Scan(bits, nr, 0).Restart? {
        forall n ensures Search(bits, nr, x, n).Again? {
          Diverges(bits, nr, x, n);
        }
      } else {
        var n0 := PassesToRestart(bits, nr, x);
        var n1 := PassesToEnd(bits, nr, 0);
        SearchAdds(bits, nr, x, n0, n1);
        assert !Search(bits, nr, x, n0 + n1).Again?;
      }
    } else {
      var n := PassesToEnd(bits, nr, x);
    }
  }

  /** When every number that may be handed out is taken, the search for one
      more never ends. */
  lemma FullMapNeverEnds(bits: seq<bool>, n: nat)
    requires |bits| >= 3 && Usable(bits) && forall i :: 0 <= i < |bits| - 1 ==> bits[i]
    ensures Search(bits, 1, 0, n).Again?
  {
    SearchEndsIff(bits, 1, 0);
    assert forall r :: Fits(bits, r, 1) ==> !bits[r];
  }

  lemma {:induction false} Diverges(bits: seq<bool>, nr: nat, x: nat, n: nat)
    requires Usable(bits) && Scan(bits, nr, x).Restart? && Scan(bits, nr, 0).Restart?
    ensures Search(bits, nr, x, n).Again?
    decreases n
  {
    if n > 0 {
      Diverges(bits, nr, Pass(bits, nr, x).index, n - 1);
    }
  }

  lemma PassesToEnd(bits: seq<bool>, nr: nat, x: nat) returns (n: nat)
    requires Usable(bits) && !Scan(bits, nr, x).Restart?
    ensures !Search(bits, nr, x, n).Again?
    decreases |bits| - x
  {
    if Pass(bits, nr, x).Again? {
      n := PassesToEnd(bits, nr, Pass(bits, nr, x).index);
      n := n + 1;
    } else {
      n := 1;
    }
  }

  lemma PassesToRestart(bits: seq<bool>, nr: nat, x: nat) returns (n: nat)
    requires Usable(bits) && Scan(bits, nr, x).Restart?
    ensures Search(bits, nr, x, n) == Again(0)
    decreases |bits| - x
  {
    if FirstClear(bits, x) + nr >= |bits| {
      n := 1;
      assert Search(bits, nr, 0, 0) == Again(0);
    } else {
      n := PassesToRestart(bits, nr, Pass(bits, nr, x).index);
      n := n + 1;
    }
  }

  lemma {:induction false} SearchAdds(bits: seq<bool>, nr: nat, x: nat, n: nat, m: nat)
    requires Usable(bits) && Search(bits, nr, x, n) == Again(0)
    ensures Search(bits, nr, x, n + m) == Search(bits, nr, 0, m)
    decreases n
  {
    if n > 0 {
      SearchAdds(bits, nr, Pass(bits, nr, x).index, n - 1, m);
    }
  }

  lemma BitsAre(bytes: seq<bv8>)
    ensures |Bits(bytes)| == 8 * |bytes|
    ensures forall i :: 0 <= i < 8 * |bytes| ==> Bits(bytes)[i] == Bit(bytes, i)
  {}

  lemma FirstClearIs(bits: seq<bool>, x: nat, z: nat)
    requires Usable(bits) && x <= z < |bits| && !bits[z] && forall i :: x <= i < z ==> bits[i]
    ensures FirstClear(bits, x) == z
  {}

  lemma FirstSetIs(bits: seq<bool>, x: nat, stop: nat, t: nat)
    requires x <= t <= stop <= |bits| && (t < stop ==> bits[t]) && forall i :: x <= i < t ==> !bits[i]
    ensures FirstSet(bits, x, stop) == t
  {}

  /** One pass of the loop: the bit routines report -1 for a candidate that is
      too close to the end, and the index wraps to 0. */
  method OnePass(bitmap: array<bv8>, nr: nat, index: nat) returns (o: Outcome)
    requires Usable(Bits(bitmap[..])) && nr > 0
    ensures o == Pass(Bits(bitmap[..]), nr, index)
  {
    hide Bits, Bit, Pass;
    ghost var bits := Bits(bitmap[..]);
    BitsAre(bitmap[..]);
    var total := 8 * bitmap.Length;
    if index + nr >= total {
      PassIs(bits, nr, index, 0, 0);
      return Full;
    }
    var zero := FindFirstBit(bitmap, index, total, false);
    assert zero >= 0 by { assert !Bit(bitmap[..], total - 1); }
    var temp := FindNrBit(bitmap, zero, total, nr, false);
    FirstClearIs(bits, index, zero);
    if temp == 0 {
      assert zero == 0 ==> !Bit(bitmap[..], 0);
      forall i | zero <= i < zero + nr ensures !bits[i] {
        assert !Bit(bitmap[..], i);
      }
      FirstSetIs(bits, zero, zero + nr, zero + nr);
      PassIs(bits, nr, index, zero, zero + nr);
      return Found(zero);
    }
    if temp > 0 {
      FirstSetIs(bits, zero, zero + nr, temp);
    }
    PassIs(bits, nr, index, zero, temp);
    return Again(if temp == -1 then 0 else temp + 1);
  }

  lemma PassIs(bits: seq<bool>, nr: nat, x: nat, z: int, t: int)
    requires Usable(bits)
    requires x + nr < |bits| ==> z == FirstClear(bits, x)
    requires x + nr < |bits| && z + nr < |bits| ==> t == FirstSet(bits, z, z + nr)
    ensures Pass(bits, nr, x) ==
      if x + nr >= |bits| then Full
      else if z + nr >= |bits| then Again(0)
      else if t == z + nr then Found(z) else Again(t + 1)
  {}

  /** What a pass makes of the scan. */
  lemma ScanByPass(bits: seq<bool>, nr: nat, x: nat)
    requires Usable(bits)
    ensures match Pass(bits, nr, x)
      case Found(z) => Scan(bits, nr, x) == Hit(z)
      case Full => Scan(bits, nr, x) == Miss
      case Again(y) => x < |bits| && (if y == 0 then Scan(bits, nr, x) == Restart
                       else x < y && Scan(bits, nr, x) == Scan(bits, nr, y))
  {}

  /** The number the search returns, or MORE. */
  function Chosen(bits: seq<bool>, nr: nat, start: nat): int
    requires bits != [] && !bits[|bits| - 1]
  {
    match Scan(bits, nr, start)
    case Hit(n) => n
    case Miss => MORE
    case Restart => match Scan(bits, nr, 0) case Hit(n) => n case _ => MORE
  }

  lemma ChosenFits(bits: seq<bool>, nr: nat, start: nat)
    requires Usable(bits) && nr > 0
    ensures Chosen(bits, nr, start) == MORE || Fits(bits, Chosen(bits, nr, start), nr)
    ensures forall s :: start <= s && Fits(bits, s, nr) ==> start <= Chosen(bits, nr, start) <= s
  {
    ScanExact(bits, nr, start);
    ScanExact(bits, nr, 0);
  }

  /** What the search returns: the lowest fitting number from the start on; without
      one the lowest of all, if the scan meets a run at the end and so comes round;
      else the error code. */
  lemma ChosenIs(bits: seq<bool>, nr: nat, start: nat, s: nat)
    requires Usable(bits) && nr > 0
    ensures var c := Chosen(bits, nr, start);
      && (c >= start ==> Fits(bits, c, nr) && (start <= s && Fits(bits, s, nr) ==> c <= s))
      && (0 <= c < start ==> Fits(bits, c, nr) && EndsInRun(bits, nr, start) && (Fits(bits, s, nr) ==> c <= s < start))
      && (c < 0 ==> c == MORE && (Fits(bits, s, nr) ==> s < start && !EndsInRun(bits, nr, start)))
  {
    ScanExact(bits, nr, start);
    ScanExact(bits, nr, 0);
  }

  /** The search. From base -1 it finds the lowest fitting number if there is
      one; from any base it finds one if there is one from the base up, and
      what it returns always fits. */
  method FindAreas(bitmap: array<bv8>, base: int, nr: nat) returns (r: int)
    requires Usable(Bits(bitmap[..])) && 0 < nr < 0x8000_0000 && base < 0x8000_0000
    requires Halts(Bits(bitmap[..]), nr, if base >= 0 then base else 0)
    ensures r == Chosen(Bits(bitmap[..]), nr, if base >= 0 then base else 0)
    ensures r == MORE || Fits(Bits(bitmap[..]), r, nr)
    ensures base <= 0 ==> forall s :: Fits(Bits(bitmap[..]), s, nr) ==> 0 <= r <= s
    ensures forall s :: base <= s && Fits(Bits(bitmap[..]), s, nr) ==> base <= r <= s && 0 <= r
  {
    ghost var bits := Bits(bitmap[..]);
    var index: nat := if base >= 0 then base else 0;
    ghost var start, restarted := index, false;
    ScanExact(bits, nr, start);
    ScanExact(bits, nr, 0);
    hide Bits, Pass, Scan, Usable;
    while true
      invariant Scan(bits, nr, index) == Scan(bits, nr, if restarted then 0 else start)
      invariant restarted ==> Scan(bits, nr, start).Restart? && !Scan(bits, nr, 0).Restart?
      decreases !restarted, |bits| - index
    {
      var o := OnePass(bitmap, nr, index);
      ScanByPass(bits, nr, index);
      match o
      case Found(z) => return z;
      case Full => return MORE;
      case Again(y) =>
        restarted := restarted || y == 0;
        index := y;
    }
  }
}
