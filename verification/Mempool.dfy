/**
 * The first-fit memory pool of common/mempool/mem_simple.c.
 *
 * A pool is a chain of block headers laid end to end over an arena. A block
 * holds at most one allocation, at its front, and keeps the space behind it as
 * `remain`; the next allocation taken from that space splits it off as a new
 * block. The headers form a doubly linked list whose back links are set when a
 * block is split off and never revised.
 */
module Mempool {
  import opened Common

  const HEADER: nat := 24
  const MAGIC: nat := 0xdfa6_9fe3
  const WORD: nat := 0x1_0000_0000
  /** Pointers from here up are error codes. */
  const ERROR_PTRS: nat := 0xFFFF_F000
  /** The largest request whose aligned size plus header fits a word. */
  const MAX_REQUEST: nat := 0xFFFF_FFE4

  /** One element of the header list; address 0 is the null pointer. */
  datatype Block = Block(addr: nat, lenth: nat, remain: nat, prev: nat)

  function Align4(n: nat): nat {
    (n + 3) / 4 * 4 % WORD
  }

  /** The block length that a request of `size` bytes asks for. */
  function Need(size: nat): nat {
    (Align4(size) + HEADER) % WORD
  }

  // ------------------------------------------------- the list of headers

  /** What block number `i` satisfies; an idle block has remain == lenth. */
  ghost predicate BlockOk(b: Block, i: nat) {
    && b.remain <= b.lenth && HEADER <= b.lenth
    && (b.remain < b.lenth ==> HEADER <= b.lenth - b.remain)
    && (i > 0 ==> b.remain < b.lenth && 0 < b.prev && b.prev + HEADER <= b.addr)
  }

  ghost predicate Adjacent(bs: seq<Block>) {
    forall i, j :: 0 <= i < |bs| && 0 <= j < |bs| && j == i + 1 ==> bs[j].addr == bs[i].addr + bs[i].lenth
  }

  /** The blocks lie end to end from `a` to `stop`. */
  ghost predicate Tiled(bs: seq<Block>, a: nat, stop: nat) {
    && bs != [] && bs[0].addr == a
    && Adjacent(bs)
    && bs[|bs| - 1].addr + bs[|bs| - 1].lenth == stop
  }

  /** The blocks tile the arena, none but the first is idle, and every back
      link names an address that leaves room for a header below its block. */
  ghost predicate PoolOk(bs: seq<Block>, a: nat, stop: nat) {
    && 0 < a && stop <= ERROR_PTRS
    && Tiled(bs, a, stop)
    && bs[0].prev == 0
    && forall i :: 0 <= i < |bs| ==> BlockOk(bs[i], i)
  }

  // ------------------------------------------------------------ operations

  function FirstFit(bs: seq<Block>, need: nat): (i: nat)
    ensures i <= |bs|
    ensures i < |bs| ==> need <= bs[i].remain
    ensures forall j :: 0 <= j < i ==> bs[j].remain < need
  {
    if bs == [] || bs[0].remain >= need then 0 else 1 + FirstFit(bs[1..], need)
  }

  /** Allocation: the new list, and the payload pointer or null. */
  function Alloc(bs: seq<Block>, need: nat): (r: (seq<Block>, nat))
    requires forall i :: 0 <= i < |bs| ==> bs[i].remain <= bs[i].lenth
  {
    var i := FirstFit(bs, need);
    if i == |bs| then (bs, 0)
    else
      var b := bs[i];
      if b.lenth == b.remain then (bs[i := b.(remain := b.remain - need)], b.addr + HEADER)
      else
        var used := b.lenth - b.remain;
        var fresh' := Block(b.addr + used, b.remain, b.remain - need, b.addr);
        (bs[..i] + [b.(lenth := used, remain := 0), fresh'] + bs[i + 1..], fresh'.addr + HEADER)
  }

  /** The block whose payload starts at `ptr`. */
  function Find(bs: seq<Block>, ptr: nat): (i: nat)
    ensures i <= |bs|
    ensures i < |bs| ==> bs[i].addr + HEADER == ptr
    ensures forall j :: 0 <= j < i ==> bs[j].addr + HEADER != ptr
  {
    if bs == [] || bs[0].addr + HEADER == ptr then 0 else 1 + Find(bs[1..], ptr)
  }

  lemma FindIs(bs: seq<Block>, ptr: nat, i: nat)
    requires i < |bs| && bs[i].addr + HEADER == ptr && forall j :: 0 <= j < i ==> bs[j].addr + HEADER != ptr
    ensures Find(bs, ptr) == i
  {}

  lemma FirstFitIs(bs: seq<Block>, need: nat, i: nat)
    requires i < |bs| && need <= bs[i].remain && forall j :: 0 <= j < i ==> bs[j].remain < need
    ensures FirstFit(bs, need) == i
  {}

  /** What freeing block `i` does to the list: it is merged into the block its
      back link names, if that is on the list before it, and otherwise only
      marked idle. */
  function FreeAt(bs: seq<Block>, i: nat): (r: seq<Block>)
    requires i < |bs|
  {
    var b := bs[i];
    var j := Find(bs[..i], b.prev + HEADER);
    if b.prev == 0 || j == i then bs[i := b.(remain := b.lenth)]
    else
      bs[..j] + [bs[j].(lenth := bs[j].lenth + b.lenth, remain := bs[j].remain + b.lenth)] + bs[i + 1..]
  }

  function Free(bs: seq<Block>, ptr: nat): (r: seq<Block>) {
    if ptr == 0 || Find(bs, ptr) == |bs| then bs else FreeAt(bs, Find(bs, ptr))
  }

  /** The back link of block `i` names the block before it. */
  predicate BackLinkTrue(bs: seq<Block>, i: nat)
    requires i < |bs|
  {
    i == 0 || bs[i].prev == bs[i - 1].addr
  }

  // ------------------------------------------------------------- requests

  /** The request is served in full, header included, exactly when the 32-bit
      sum does not wrap. */
  lemma NeedCovers(size: nat)
    requires size < WORD
    ensures Need(size) >= size + HEADER <==> size <= MAX_REQUEST
    ensures size <= MAX_REQUEST ==> Need(size) < size + HEADER + 4 && Need(size) % 4 == 0
  {}

  /** A request of 4294967292 bytes asks for a 20-byte block. */
  lemma WrappedRequest()
    ensures Need(0xFFFF_FFFC) == 20
  {}

  // --------------------------------------------------------------- tiling

  lemma {:induction false} AddrsRise(bs: seq<Block>, i: nat, j: nat)
    requires i < j < |bs|
    requires Adjacent(bs)
    ensures bs[i].addr + bs[i].lenth <= bs[j].addr
    decreases j - i
  {
    if j > i + 1 {
      AddrsRise(bs, i + 1, j);
    }
  }

  function Total(bs: seq<Block>): nat {
    if bs == [] then 0 else bs[0].lenth + Total(bs[1..])
  }

  /** The block lengths always add up to the arena. */
  lemma {:induction false} TotalIsArena(bs: seq<Block>, a: nat, stop: nat)
    requires Tiled(bs, a, stop)
    ensures Total(bs) == stop - a
  {
    if |bs| > 1 {
      TotalIsArena(bs[1..], bs[1].addr, stop);
    }
  }

  /** In a pool, payloads start at distinct addresses. */
  lemma FindsOwn(bs: seq<Block>, a: nat, stop: nat, i: nat)
    requires PoolOk(bs, a, stop) && i < |bs|
    ensures Find(bs, bs[i].addr + HEADER) == i
  {
    var k := Find(bs, bs[i].addr + HEADER);
    if k < i {
      AddrsRise(bs, k, i);
    }
  }

  // ---------------------------------------------------- splitting and joining

  /** `x` and `y` in the place of block `i`. */
  function Split(bs: seq<Block>, i: nat, x: Block, y: Block): seq<Block>
    requires i < |bs|
  {
    bs[..i] + [x, y] + bs[i + 1..]
  }

  /** `x` in the place of blocks `i` and `i + 1`. */
  function Join(bs: seq<Block>, i: nat, x: Block): seq<Block>
    requires i + 1 < |bs|
  {
    bs[..i] + [x] + bs[i + 2..]
  }

  lemma {:induction false} SplitTiled(bs: seq<Block>, a: nat, stop: nat, i: nat, x: Block, y: Block)
    requires Tiled(bs, a, stop) && i < |bs|
    requires x.addr == bs[i].addr && y.addr == x.addr + x.lenth && x.lenth + y.lenth == bs[i].lenth
    ensures Tiled(Split(bs, i, x, y), a, stop)
  {
    var r := Split(bs, i, x, y);
    forall k, l | 0 <= k < |r| && 0 <= l < |r| && l == k + 1 ensures r[l].addr == r[k].addr + r[k].lenth {
      if l < i {
        assert r[k] == bs[k] && r[l] == bs[l];
      } else if l == i {
        assert r[k] == bs[k] && bs[i].addr == bs[k].addr + bs[k].lenth;
      } else if k == i + 1 {
        assert r[l] == bs[l - 1] && bs[l - 1].addr == bs[i].addr + bs[i].lenth;
      } else if k > i + 1 {
        assert r[k] == bs[k - 1] && r[l] == bs[l - 1];
      }
    }
  }

  lemma {:induction false} JoinTiled(bs: seq<Block>, a: nat, stop: nat, i: nat, x: Block)
    requires Tiled(bs, a, stop) && i + 1 < |bs|
    requires x.addr == bs[i].addr && x.lenth == bs[i].lenth + bs[i + 1].lenth
    ensures Tiled(Join(bs, i, x), a, stop)
  {
    var r := Join(bs, i, x);
    assert bs[i + 1].addr == bs[i].addr + bs[i].lenth;
    forall k, l | 0 <= k < |r| && 0 <= l < |r| && l == k + 1 ensures r[l].addr == r[k].addr + r[k].lenth {
      if l < i {
        assert r[k] == bs[k] && r[l] == bs[l];
      } else if l == i {
        assert r[k] == bs[k] && bs[i].addr == bs[k].addr + bs[k].lenth;
      } else if k == i {
        assert r[l] == bs[l + 1] && bs[l + 1].addr == bs[i + 1].addr + bs[i + 1].lenth;
      } else {
        assert r[k] == bs[k + 1] && r[l] == bs[l + 1];
      }
    }
  }

  // ------------------------------------------------------------ allocation

  lemma {:induction false} SplitOk(bs: seq<Block>, a: nat, stop: nat, i: nat, x: Block, y: Block)
    requires PoolOk(bs, a, stop) && i < |bs|
    requires x.addr == bs[i].addr && y.addr == x.addr + x.lenth && x.lenth + y.lenth == bs[i].lenth
    requires x.prev == bs[i].prev && BlockOk(x, i) && BlockOk(y, i + 1)
    ensures PoolOk(Split(bs, i, x, y), a, stop)
  {
    SplitTiled(bs, a, stop, i, x, y);
    hide Tiled;
    var r := Split(bs, i, x, y);
    forall k | 0 <= k < |r| ensures BlockOk(r[k], k) {
      if k < i {
        assert r[k] == bs[k];
      } else if k > i + 1 {
        assert r[k] == bs[k - 1];
      }
    }
  }

  lemma {:induction false} JoinOk(bs: seq<Block>, a: nat, stop: nat, i: nat, x: Block)
    requires PoolOk(bs, a, stop) && i + 1 < |bs|
    requires x.addr == bs[i].addr && x.lenth == bs[i].lenth + bs[i + 1].lenth
    requires x.prev == bs[i].prev && BlockOk(x, i)
    ensures PoolOk(Join(bs, i, x), a, stop)
  {
    JoinTiled(bs, a, stop, i, x);
    hide Tiled;
    var r := Join(bs, i, x);
    forall k | 0 <= k < |r| ensures BlockOk(r[k], k) {
      if k < i {
        assert r[k] == bs[k];
      } else if k > i {
        assert r[k] == bs[k + 1];
      }
    }
  }

  lemma ResizeOk(bs: seq<Block>, a: nat, stop: nat, i: nat, x: Block)
    requires PoolOk(bs, a, stop) && i < |bs|
    requires x.addr == bs[i].addr && x.lenth == bs[i].lenth && x.prev == bs[i].prev && BlockOk(x, i)
    ensures PoolOk(bs[i := x], a, stop)
  {}

  lemma {:induction false} AllocOk(bs: seq<Block>, a: nat, stop: nat, need: nat)
    requires PoolOk(bs, a, stop) && need >= HEADER
    ensures PoolOk(Alloc(bs, need).0, a, stop)
  {
    hide Tiled;
    var i := FirstFit(bs, need);
    if i < |bs| {
      var b := bs[i];
      assert BlockOk(b, i);
      if b.lenth == b.remain {
        ResizeOk(bs, a, stop, i, b.(remain := b.remain - need));
      } else {
        var used := b.lenth - b.remain;
        BlockInArena(bs, a, stop, i);
        SplitOk(bs, a, stop, i, b.(lenth := used, remain := 0), Block(b.addr + used, b.remain, b.remain - need, b.addr));
      }
    }
  }

  /** An address range. */
  datatype Extent = Extent(start: nat, stop: nat)

  ghost predicate Apart(x: Extent, y: Extent) {
    x.stop <= y.start || y.stop <= x.start
  }

  /** The part of a block in use: its header and its allocation. */
  function Used(b: Block): Extent {
    Extent(b.addr, if b.remain <= b.lenth then b.addr + b.lenth - b.remain else b.addr)
  }

  /** The extents of all live allocations, headers included. */
  ghost function Live(bs: seq<Block>): set<Extent> {
    set b | b in bs && b.remain < b.lenth :: Used(b)
  }

  lemma LiveConcat(x: seq<Block>, y: seq<Block>)
    ensures Live(x + y) == Live(x) + Live(y)
  {}

  /** Live allocations lie in the arena and do not overlap. */
  lemma LiveApart(bs: seq<Block>, a: nat, stop: nat, x: Extent, y: Extent)
    requires PoolOk(bs, a, stop) && x in Live(bs) && y in Live(bs)
    ensures a <= x.start < x.stop <= stop
    ensures x != y ==> Apart(x, y)
  {
    var i :| 0 <= i < |bs| && bs[i].remain < bs[i].lenth && x == Used(bs[i]);
    var j :| 0 <= j < |bs| && bs[j].remain < bs[j].lenth && y == Used(bs[j]);
    BlockInArena(bs, a, stop, i);
    if i != j {
      BlocksApart(bs, a, stop, i, j);
    }
  }

  lemma BlockInArena(bs: seq<Block>, a: nat, stop: nat, i: nat)
    requires Tiled(bs, a, stop) && i < |bs|
    ensures a <= bs[i].addr && bs[i].addr + bs[i].lenth <= stop
  {
    if i > 0 {
      AddrsRise(bs, 0, i);
    }
    if i < |bs| - 1 {
      AddrsRise(bs, i, |bs| - 1);
    }
  }

  lemma {:induction false} BlocksApart(bs: seq<Block>, a: nat, stop: nat, i: nat, j: nat)
    requires Tiled(bs, a, stop) && i < |bs| && j < |bs| && i != j
    ensures bs[i].addr + bs[i].lenth <= bs[j].addr || bs[j].addr + bs[j].lenth <= bs[i].addr
  {
    if i < j {
      AddrsRise(bs, i, j);
    } else {
      AddrsRise(bs, j, i);
    }
  }

  lemma {:induction false} AllocLive(bs: seq<Block>, a: nat, stop: nat, need: nat)
    requires PoolOk(bs, a, stop) && need >= HEADER
    ensures var (r, ptr) := Alloc(bs, need);
      && (ptr == 0 <==> forall i :: 0 <= i < |bs| ==> bs[i].remain < need)
      && Live(r) == Live(bs) + (if ptr == 0 then {} else {Extent(ptr - HEADER, ptr - HEADER + need)})
  {
    hide Tiled, Live, FirstFit;
    var i := FirstFit(bs, need);
    if i < |bs| {
      var b := bs[i];
      assert BlockOk(b, i);
      hide PoolOk;
      if b.lenth == b.remain {
        var x := b.(remain := b.remain - need);
        LiveReplaced(bs, i, [x]);
        LiveOne(b);
        LiveOne(x);
        assert bs[i := x] == bs[..i] + [x] + bs[i + 1..];
      } else {
        var used := b.lenth - b.remain;
        var x, y := b.(lenth := used, remain := 0), Block(b.addr + used, b.remain, b.remain - need, b.addr);
        LiveReplaced(bs, i, [x, y]);
        LiveConcat([x], [y]);
        assert [x] + [y] == [x, y];
        LiveOne(b);
        LiveOne(x);
        LiveOne(y);
      }
    }
  }

  /** The extents when `mid` stands in the place of block `i`. */
  lemma LiveReplaced(bs: seq<Block>, i: nat, mid: seq<Block>)
    requires i < |bs|
    ensures Live(bs) == Live(bs[..i]) + Live([bs[i]]) + Live(bs[i + 1..])
    ensures Live(bs[..i] + mid + bs[i + 1..]) == Live(bs[..i]) + Live(mid) + Live(bs[i + 1..])
  {
    hide Live;
    assert bs == bs[..i] + [bs[i]] + bs[i + 1..];
    LiveConcat(bs[..i] + [bs[i]], bs[i + 1..]);
    LiveConcat(bs[..i], [bs[i]]);
    LiveConcat(bs[..i] + mid, bs[i + 1..]);
    LiveConcat(bs[..i], mid);
  }

  lemma LiveNone()
    ensures Live([]) == {}
  {}

  lemma LiveOne(b: Block)
    ensures Live([b]) == if b.remain < b.lenth then {Used(b)} else {}
  {
    assert forall c :: c in [b] <==> c == b;
  }

  /** The extent handed out starts where no live one did. */
  lemma AllocFresh(bs: seq<Block>, a: nat, stop: nat, need: nat, y: Extent)
    requires PoolOk(bs, a, stop) && need >= HEADER && y in Live(bs) && Alloc(bs, need).1 != 0
    ensures y.start != Alloc(bs, need).1 - HEADER
  {
    var i := FirstFit(bs, need);
    var k :| 0 <= k < |bs| && bs[k].remain < bs[k].lenth && y == Used(bs[k]);
    assert BlockOk(bs[i], i) && BlockOk(bs[k], k);
    if k != i {
      BlocksApart(bs, a, stop, i, k);
    }
  }

  /** The payload comes from the first block with room, behind what is in use. */
  lemma AllocPlace(bs: seq<Block>, a: nat, stop: nat, need: nat, i: nat)
    requires PoolOk(bs, a, stop) && i < |bs| && need <= bs[i].remain
    requires forall j :: 0 <= j < i ==> bs[j].remain < need
    ensures Alloc(bs, need).1 == bs[i].addr + (bs[i].lenth - bs[i].remain) + HEADER
    ensures forall j :: 0 <= j < i ==> Alloc(bs, need).0[j] == bs[j]
  {
    FirstFitIs(bs, need, i);
    assert BlockOk(bs[i], i);
  }

  /** Allocation on any well-formed pool: it fails exactly when no block has
      room; otherwise the payload holds the request, lies in the arena, shares
      no byte with any live allocation or header, and every live allocation
      stays as it is. The blocks still tile the arena. */
  lemma {:induction false} AllocSound(bs: seq<Block>, a: nat, stop: nat, size: nat)
    requires PoolOk(bs, a, stop) && size <= MAX_REQUEST
    ensures var (r, ptr) := Alloc(bs, Need(size));
      && PoolOk(r, a, stop) && Total(r) == stop - a
      && (ptr == 0 <==> forall i :: 0 <= i < |bs| ==> bs[i].remain < Need(size))
      && (ptr == 0 ==> r == bs)
      && (ptr != 0 ==>
            var x := Extent(ptr - HEADER, ptr - HEADER + Need(size));
            && x.stop >= ptr + size && a <= x.start && x.stop <= stop
            && Live(r) == Live(bs) + {x}
            && forall y :: y in Live(bs) ==> Apart(x, y))
  {
    hide Tiled, Live;
    NeedCovers(size);
    var need := Need(size);
    AllocOk(bs, a, stop, need);
    AllocLive(bs, a, stop, need);
    var (r, ptr) := Alloc(bs, need);
    TotalIsArena(r, a, stop);
    if ptr != 0 {
      var x := Extent(ptr - HEADER, ptr - HEADER + need);
      LiveApart(r, a, stop, x, x);
      forall y | y in Live(bs) ensures Apart(x, y) {
        AllocFresh(bs, a, stop, need, y);
        LiveApart(r, a, stop, x, y);
      }
    }
  }

  // ------------------------------------------------------------------ free

  /** The branch that merges an idle successor is dead in a well-formed pool. */
  lemma SuccessorNeverIdle(bs: seq<Block>, a: nat, stop: nat, i: nat)
    requires PoolOk(bs, a, stop) && i + 1 < |bs|
    ensures bs[i + 1].lenth != bs[i + 1].remain
  {
    assert BlockOk(bs[i + 1], i + 1);
  }

  /** Block `i` merged into its predecessor. */
  function Merged(bs: seq<Block>, i: nat): Block
    requires 0 < i < |bs|
  {
    bs[i - 1].(lenth := bs[i - 1].lenth + bs[i].lenth, remain := bs[i - 1].remain + bs[i].lenth)
  }

  lemma FreeTrue(bs: seq<Block>, a: nat, stop: nat, i: nat)
    requires PoolOk(bs, a, stop) && 0 < i < |bs| && BackLinkTrue(bs, i)
    ensures FreeAt(bs, i) == Join(bs, i - 1, Merged(bs, i))
  {
    var j := Find(bs[..i], bs[i].prev + HEADER);
    assert BlockOk(bs[i], i);
    assert j <= i - 1 by { assert bs[..i][i - 1] == bs[i - 1]; }
    if j < i - 1 {
      assert bs[..i][j] == bs[j] && BlockOk(bs[j], j);
      AddrsRise(bs, j, i - 1);
    }
  }

  lemma {:induction false} FreeKeeps(bs: seq<Block>, a: nat, stop: nat, i: nat)
    requires PoolOk(bs, a, stop) && i < |bs| && BackLinkTrue(bs, i)
    ensures PoolOk(FreeAt(bs, i), a, stop)
  {
    hide Tiled;
    assert BlockOk(bs[i], i);
    if i > 0 {
      assert BlockOk(bs[i - 1], i - 1);
      FreeTrue(bs, a, stop, i);
      JoinOk(bs, a, stop, i - 1, Merged(bs, i));
    } else {
      ResizeOk(bs, a, stop, 0, bs[0].(remain := bs[0].lenth));
    }
  }

  lemma {:induction false} FreeBreaks(bs: seq<Block>, a: nat, stop: nat, i: nat)
    requires PoolOk(bs, a, stop) && i < |bs| && !BackLinkTrue(bs, i)
    ensures !PoolOk(FreeAt(bs, i), a, stop)
  {
    var j := Find(bs[..i], bs[i].prev + HEADER);
    var r := FreeAt(bs, i);
    assert BlockOk(bs[i], i);
    if j < i {
      assert bs[..i][j] == bs[j] && BlockOk(bs[i - 1], i - 1);
      assert j < i - 1;
      AddrsRise(bs, j, i - 1);
      assert bs[i].addr == bs[i - 1].addr + bs[i - 1].lenth;
      assert r[j].addr == bs[j].addr && r[j].lenth == bs[j].lenth + bs[i].lenth;
      if i + 1 < |bs| {
        assert r[j + 1] == bs[i + 1];
        assert bs[i + 1].addr == bs[i].addr + bs[i].lenth;
      }
    } else {
      assert !BlockOk(r[i], i);
    }
  }

  /** Freeing a block leaves a well-formed pool if and only if its back link
      names the block that precedes it now. */
  lemma {:induction false} FreeKeepsIff(bs: seq<Block>, a: nat, stop: nat, i: nat)
    requires PoolOk(bs, a, stop) && i < |bs|
    ensures PoolOk(FreeAt(bs, i), a, stop) <==> BackLinkTrue(bs, i)
  {
    if BackLinkTrue(bs, i) {
      FreeKeeps(bs, a, stop, i);
    } else {
      FreeBreaks(bs, a, stop, i);
    }
  }

  /** Every back link is true. */
  ghost predicate LinksTrue(bs: seq<Block>) {
    forall i :: 0 <= i < |bs| ==> BackLinkTrue(bs, i)
  }

  /** Allocation keeps every back link true if and only if it fails, takes from
      the idle block, or splits the last block: a split anywhere else puts a
      block between the next one and the block its link names. */
  lemma AllocKeepsLinksIff(bs: seq<Block>, a: nat, stop: nat, need: nat)
    requires PoolOk(bs, a, stop) && LinksTrue(bs) && need >= HEADER
    ensures var i := FirstFit(bs, need);
      LinksTrue(Alloc(bs, need).0) <==> i == |bs| || bs[i].lenth == bs[i].remain || i == |bs| - 1
  {
    hide Tiled;
    var i, r := FirstFit(bs, need), Alloc(bs, need).0;
    if i < |bs| {
      assert BlockOk(bs[i], i);
      if bs[i].lenth == bs[i].remain {
        forall k | 0 <= k < |r| ensures BackLinkTrue(r, k) {
          assert BackLinkTrue(bs, k);
        }
      } else {
        forall k | 0 <= k < |r| && k != i + 2 ensures BackLinkTrue(r, k) {
          assert k <= i ==> BackLinkTrue(bs, k);
          assert k > i + 2 ==> r[k] == bs[k - 1] && r[k - 1] == bs[k - 2] && BackLinkTrue(bs, k - 1);
        }
        if i < |bs| - 1 {
          assert BackLinkTrue(bs, i + 1) && r[i + 2] == bs[i + 1];
          assert !BackLinkTrue(r, i + 2);
        }
      }
    }
  }

  /** Freeing keeps every back link true if and only if it frees the first or
      the last block. */
  lemma FreeKeepsLinksIff(bs: seq<Block>, a: nat, stop: nat, i: nat)
    requires PoolOk(bs, a, stop) && LinksTrue(bs) && i < |bs|
    ensures LinksTrue(FreeAt(bs, i)) <==> i == 0 || i == |bs| - 1
  {
    var r := FreeAt(bs, i);
    if i == 0 {
      forall k | 0 <= k < |r| ensures BackLinkTrue(r, k) {
        assert BackLinkTrue(bs, k);
      }
    } else {
      assert BackLinkTrue(bs, i);
      FreeTrue(bs, a, stop, i);
      if i < |bs| - 1 {
        AddrsRise(bs, i - 1, i);
        assert BackLinkTrue(bs, i + 1) && r[i] == bs[i + 1] && BlockOk(bs[i - 1], i - 1);
        assert !BackLinkTrue(r, i);
      } else {
        forall k | 0 <= k < |r| ensures BackLinkTrue(r, k) {
          assert BackLinkTrue(bs, k);
        }
      }
    }
  }

  /** Freeing gives up the one allocation and keeps every other. */
  lemma {:induction false} FreeLive(bs: seq<Block>, a: nat, stop: nat, i: nat)
    requires PoolOk(bs, a, stop) && i < |bs| && BackLinkTrue(bs, i)
    ensures PoolOk(FreeAt(bs, i), a, stop)
    ensures Live(FreeAt(bs, i)) == Live(bs) - {Used(bs[i])}
  {
    hide Tiled, Live, FreeAt, Used;
    FreeKeeps(bs, a, stop, i);
    UsedNotIn(bs, a, stop, i);
    LiveReplaced(bs, i, []);
    LiveOne(bs[i]);
    if i == 0 {
      var x := bs[0].(remain := bs[0].lenth);
      FreeFirst(bs, a, stop);
      LiveReplaced(bs, 0, [x]);
      LiveOne(x);
      assert bs[..0] == [];
      LiveNone();
    } else {
      FreeTrue(bs, a, stop, i);
      LiveMerged(bs, a, stop, i);
    }
  }

  lemma FreeFirst(bs: seq<Block>, a: nat, stop: nat)
    requires PoolOk(bs, a, stop)
    ensures FreeAt(bs, 0) == bs[..0] + [bs[0].(remain := bs[0].lenth)] + bs[1..]
  {}

  /** A merged block has the extent of its first part. */
  lemma LiveMerged(bs: seq<Block>, a: nat, stop: nat, i: nat)
    requires PoolOk(bs, a, stop) && 0 < i < |bs|
    ensures Live(Join(bs, i - 1, Merged(bs, i))) == Live(bs[..i]) + Live(bs[i + 1..])
  {
    hide Tiled, Live;
    var p, m, pre := bs[i - 1], Merged(bs, i), bs[..i - 1];
    assert BlockOk(p, i - 1);
    assert bs[..i] == pre + [p];
    LiveConcat(pre, [p]);
    LiveConcat(pre, [m]);
    LiveConcat(pre + [m], bs[i + 1..]);
    LiveOne(p);
    LiveOne(m);
  }

  /** No other block has the extent of block `i`. */
  lemma UsedNotIn(bs: seq<Block>, a: nat, stop: nat, i: nat)
    requires PoolOk(bs, a, stop) && i < |bs|
    ensures Used(bs[i]) !in Live(bs[..i]) && Used(bs[i]) !in Live(bs[i + 1..])
  {
    assert BlockOk(bs[i], i);
    forall k | 0 <= k < |bs| && k != i ensures Used(bs[k]) != Used(bs[i]) {
      assert BlockOk(bs[k], k);
      BlocksApart(bs, a, stop, i, k);
    }
  }
}
