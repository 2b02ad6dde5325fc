/**
 * The bitmap routines of common/generic/io_stream.c, over an array of bytes.
 */
module Bitmap {

  /** Indices are 32-bit numbers. */
  const WRAP: nat := 0x1_0000_0000

  function Mask(k: nat): bv8
    requires k < 8
  {
    (1 as bv8) << k
  }

  /** Bit `i` of the bitmap. */
  predicate Bit(bytes: seq<bv8>, i: nat)
    requires i / 8 < |bytes|
  {
    bytes[i / 8] & Mask(i % 8) != 0
  }

  lemma MaskCases(k: nat)
    requires k < 8
    ensures Mask(k) == [1 as bv8, 2, 4, 8, 16, 32, 64, 128][k]
  {
    if k == 0 {} else if k == 1 {} else if k == 2 {} else if k == 3 {}
    else if k == 4 {} else if k == 5 {} else if k == 6 {} else {}
  }

  /** Distinct bits of a byte are set and cleared independently. */
  lemma MaskIndependent(b: bv8, k: nat, j: nat)
    requires k < 8 && j < 8
    ensures ((b | Mask(k)) & Mask(j) != 0) == (j == k || b & Mask(j) != 0)
    ensures ((b & !Mask(k)) & Mask(j) != 0) == (j != k && b & Mask(j) != 0)
  {
    MaskCases(k);
    MaskCases(j);
  }

  function WithBit(bytes: seq<bv8>, i: nat, value: bool): seq<bv8>
    requires i / 8 < |bytes|
  {
    var b := bytes[i / 8];
    bytes[i / 8 := if value then b | Mask(i % 8) else b & !Mask(i % 8)]
  }

  lemma WithBitOne(bytes: seq<bv8>, i: nat, value: bool, j: nat)
    requires i / 8 < |bytes| && j / 8 < |bytes|
    ensures Bit(WithBit(bytes, i, value), j) == if j == i then value else Bit(bytes, j)
  {
    if j / 8 == i / 8 {
      MaskIndependent(bytes[i / 8], i % 8, j % 8);
    }
  }

  /** The bitmap as a sequence of bits. */
  ghost function Bits(bytes: seq<bv8>): (r: seq<bool>)
    ensures |r| == 8 * |bytes|
    ensures forall i :: 0 <= i < |r| ==> r[i] == Bit(bytes, i)
  {
    seq(8 * |bytes|, i requires 0 <= i < 8 * |bytes| => Bit(bytes, i))
  }

  lemma WithBitAt(bytes: seq<bv8>, i: nat, value: bool)
    requires i / 8 < |bytes|
    ensures Bits(WithBit(bytes, i, value)) == Bits(bytes)[i := value]
  {
    var a, b := Bits(WithBit(bytes, i, value)), Bits(bytes)[i := value];
    forall j | 0 <= j < |a| ensures a[j] == b[j] {
      WithBitOne(bytes, i, value, j);
    }
  }

  /** The first position from `start` whose bit is `value`, or -1. */
  method FindFirstBit(bitmap: array<bv8>, start: nat, total: nat, value: bool) returns (r: int)
    requires total <= 8 * bitmap.Length
    ensures r == -1 || start <= r < total
    ensures r >= 0 ==> Bit(bitmap[..], r) == value
    ensures forall i :: start <= i < (if r < 0 then total else r) ==> Bit(bitmap[..], i) != value
  {
    var index := start;
    while index < total
      invariant start <= index
      invariant forall i :: start <= i < index && i < total ==> Bit(bitmap[..], i) != value
    {
      var area, bit := index / 8, index % 8;
      if (bitmap[area] & Mask(bit) != 0) == value {
        break;
      }
      index := index + 1;
    }
    return if index >= total then -1 else index;
  }

  /** 0 if the `nr` bits from `start` all are `value`, otherwise the first that
      is not; -1 if they reach the last bit of the map. */
  method FindNrBit(bitmap: array<bv8>, start: nat, total: nat, nr: nat, value: bool) returns (r: int)
    requires total <= 8 * bitmap.Length
    ensures r == -1 <==> start + nr >= total
    ensures r == 0 && !(start == 0 && nr > 0 && Bit(bitmap[..], 0) != value) ==>
              forall i :: start <= i < start + nr ==> Bit(bitmap[..], i) == value
    ensures r > 0 ==> start <= r < start + nr && Bit(bitmap[..], r) != value
                      && forall i :: start <= i < r ==> Bit(bitmap[..], i) == value
    ensures r >= -1
  {
    var end := start + nr;
    if end >= total {
      return -1;
    }
    var index := FindFirstBit(bitmap, start, end, !value);
    return if index < 0 then 0 else index;
  }

  /** `bits` with the `nr` bits from `start` set to `value`. */
  function Filled(bits: seq<bool>, start: nat, nr: nat, value: bool): (r: seq<bool>)
    requires start + nr <= |bits|
  {
    bits[..start] + seq(nr, i => value) + bits[start + nr..]
  }

  lemma FilledIs(bits: seq<bool>, start: nat, nr: nat, value: bool, i: nat)
    requires start + nr <= |bits| && i < |bits|
    ensures |Filled(bits, start, nr, value)| == |bits|
    ensures Filled(bits, start, nr, value)[i] == if start <= i < start + nr then value else bits[i]
  {}

  method WriteBit(bitmap: array<bv8>, index: nat, value: bool)
    requires index / 8 < bitmap.Length
    modifies bitmap
    ensures Bits(bitmap[..]) == old(Bits(bitmap[..]))[index := value]
  {
    hide Bit, Bits, Mask;
    var area, bit := index / 8, index % 8;
    WithBitAt(bitmap[..], index, value);
    if value {
      bitmap[area] := bitmap[area] | Mask(bit);
    } else {
      bitmap[area] := bitmap[area] & !Mask(bit);
    }
    assert bitmap[..] == WithBit(old(bitmap[..]), index, value);
  }

  /** Sets the `nr` bits from `start` to `value`, unless they reach the last
      bit of the map, and changes no other bit. */
  method SetNrBit(bitmap: array<bv8>, start: nat, total: nat, nr: nat, value: bool)
    requires total <= 8 * bitmap.Length && start < WRAP && nr < WRAP && total <= WRAP
    modifies bitmap
    ensures Bits(bitmap[..]) == if start + nr < total then Filled(old(Bits(bitmap[..])), start, nr, value)
                                else old(Bits(bitmap[..]))
  {
    hide Bit, Bits, Mask, Part, Filled;
    var end := (start + nr) % WRAP;
    ghost var bits := Bits(bitmap[..]);
    Parts(bits, start, nr, value);
    if end >= total {
      return;
    }
    var index := start;
    while index < end
      invariant start <= index && (index <= end || index == start)
      invariant Bits(bitmap[..]) == Part(bits, start, index - start, value)
    {
      WriteBit(bitmap, index, value);
      PartNext(bits, start, index - start, value);
      index := index + 1;
    }
  }

  /** `bits` with `nr` bits set, if it has so many. */
  ghost function Part(bits: seq<bool>, start: nat, nr: nat, value: bool): seq<bool> {
    if start + nr <= |bits| then Filled(bits, start, nr, value) else bits
  }

  lemma Parts(bits: seq<bool>, start: nat, nr: nat, value: bool)
    ensures Part(bits, start, 0, value) == bits
    ensures start + nr <= |bits| ==> Part(bits, start, nr, value) == Filled(bits, start, nr, value)
  {}

  lemma PartNext(bits: seq<bool>, start: nat, nr: nat, value: bool)
    requires start + nr < |bits|
    ensures Part(bits, start, nr + 1, value) == Part(bits, start, nr, value)[start + nr := value]
  {}
}
