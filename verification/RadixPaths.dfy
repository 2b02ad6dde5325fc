/**
 * Paths of the radix tree of common/generic/radix_tree.c: a number's path is
 * its octal digits, least significant first.
 */
module RadixPaths {
  import opened PathTree

  const WORD: nat := 0x1_0000_0000
  const FAN: nat := 8

  function PathOf(n: nat): (p: Path)
    ensures p != [] && forall i :: 0 <= i < |p| ==> p[i] < FAN
  {
    if n < FAN then [n] else [n % FAN] + PathOf(n / FAN)
  }

  function ValueOf(p: Path): nat {
    if p == [] then 0 else p[0] + FAN * ValueOf(p[1..])
  }

  lemma {:induction false} ValueOfPath(n: nat)
    ensures ValueOf(PathOf(n)) == n
  {
    if n >= FAN {
      ValueOfPath(n / FAN);
      assert PathOf(n)[1..] == PathOf(n / FAN);
    } else {
      assert PathOf(n)[1..] == [];
    }
  }

  /** No two numbers share a path. */
  lemma PathInjective(a: nat, b: nat)
    requires PathOf(a) == PathOf(b)
    ensures a == b
  {
    ValueOfPath(a);
    ValueOfPath(b);
  }

  /** How the digits come off a number. */
  lemma PathStep(n: nat)
    ensures PathOf(n)[0] == n % FAN
    ensures if n < FAN then |PathOf(n)| == 1 else PathOf(n)[1..] == PathOf(n / FAN)
  {}

  /** The path of one number may run through the node of another. */
  lemma PathsNest()
    ensures PathOf(0) < PathOf(8)
  {
    assert PathOf(8) == [0] + PathOf(1);
  }

  // ------------------------------------------------------------ path length

  function Pow2(k: nat): (r: nat)
    ensures r > 0
  {
    if k == 0 then 1 else 2 * Pow2(k - 1)
  }

  lemma {:induction false} PathLength(n: nat, k: nat)
    requires k > 0 && n < Pow2(k) && (k > 1 ==> Pow2(k - 1) <= n)
    ensures |PathOf(n)| == (k + 2) / 3
  {
    if k > 3 {
      assert Pow2(k) == 8 * Pow2(k - 3) && Pow2(k - 1) == 8 * Pow2(k - 4);
      Pow2AtLeast(k - 4);
      PathLength(n / FAN, k - 3);
    } else {
      assert Pow2(3) == 8 && Pow2(k) <= 8;
    }
  }

  lemma Pow2AtLeast(k: nat)
    ensures Pow2(k) >= 1
  {}

  /** The length of a number's path in bits: the position of its highest set
      bit, rounded up to a multiple of three, and at least three. */
  method NumLen(number: nat) returns (r: nat)
    requires number < WORD
    ensures r == 3 * |PathOf(number)|
  {
    hide Pow2, PathOf;
    Pow2Of32();
    var i := 31;
    var count := 0;
    while i >= 0
      invariant -1 <= i <= 31 && count == 31 - i
      invariant number < Pow2(i + 1)
    {
      if number / Pow2(i) % 2 == 1 {
        break;
      }
      HighBitClear(number, i);
      count := count + 1;
      i := i - 1;
    }
    count := 32 - count;
    LengthFrom(number, i);
    if count <= 3 {
      return 3;
    }
    var result := count % 3;
    return if result != 0 then count + 3 - result else count;
  }

  /** The length of the path from the position of the highest set bit, -1 for
      none. */
  lemma LengthFrom(number: nat, i: int)
    requires -1 <= i && number < Pow2(i + 1) && (i >= 0 ==> number / Pow2(i) % 2 == 1)
    ensures 3 * |PathOf(number)| ==
      if i < 3 then 3 else if (i + 1) % 3 != 0 then i + 1 + 3 - (i + 1) % 3 else i + 1
  {
    hide Pow2, PathOf;
    PathOfZero();
    if i < 0 {
      assert number == 0;
    } else {
      HighBitSet(number, i);
      PathLength(number, i + 1);
    }
  }

  lemma PathOfZero()
    ensures Pow2(0) == 1 && |PathOf(0)| == 1
  {}

  lemma Pow2Of32()
    ensures Pow2(32) == WORD
  {
    assert Pow2(8) == 256;
    assert Pow2(16) == 65536;
    assert Pow2(24) == 16777216;
  }

  lemma HighBitClear(n: nat, i: nat)
    requires n < Pow2(i + 1) && n / Pow2(i) % 2 != 1
    ensures n < Pow2(i)
  {
    DivBounds(n, Pow2(i));
  }

  lemma HighBitSet(n: nat, i: nat)
    requires n / Pow2(i) % 2 == 1
    ensures Pow2(i) <= n
  {
    DivBounds(n, Pow2(i));
  }

  lemma DivBounds(n: nat, d: nat)
    requires d > 0
    ensures n < d ==> n / d == 0
    ensures d <= n < 2 * d ==> n / d == 1
  {
    var q := n / d;
    assert q * d <= n < q * d + d;
    if q >= 2 {
      assert q * d >= 2 * d;
    }
  }
}
