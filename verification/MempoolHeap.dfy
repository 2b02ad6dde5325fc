/**
 * The pool as headers in memory, walked and rewritten through their links. Memory
 * is addressed by words, so headers may overlap, and a write through a link that
 * no longer names a header hits whatever lies there.
 */
module MempoolHeap {
  import opened Common
  import opened Mempool
  import opened MempoolRuns

  datatype Code = Normal | Invalid

  /** The word at each address; what the map leaves out reads as 0. */
  type Memory = map<nat, nat>

  /** Where the fields of a header lie. */
  const BASE: nat := 4
  const LENTH: nat := 8
  const REMAIN: nat := 12
  const PREV: nat := 16
  const NEXT: nat := 20

  function At(mem: Memory, x: nat): nat {
    if x in mem then mem[x] else 0
  }

  function Put(mem: Memory, x: nat, word: nat): Memory {
    mem[x := word]
  }

  lemma AtPut(mem: Memory, x: nat, word: nat, z: nat)
    ensures At(Put(mem, x, word), z) == if z == x then word else At(mem, z)
  {}

  function NextOf(bs: seq<Block>, i: nat): nat {
    if i + 1 < |bs| then bs[i + 1].addr else 0
  }

  /** Memory holds the header of block `i`, all six words of it. */
  ghost predicate HeaderAt(mem: Memory, bs: seq<Block>, i: nat)
    requires i < |bs|
  {
    Written(mem, bs[i], NextOf(bs, i))
  }

  ghost predicate Written(mem: Memory, b: Block, next: nat) {
    && At(mem, b.addr) == MAGIC && At(mem, b.addr + BASE) == b.addr + HEADER
    && At(mem, b.addr + LENTH) == b.lenth && At(mem, b.addr + REMAIN) == b.remain
    && At(mem, b.addr + PREV) == b.prev && At(mem, b.addr + NEXT) == next
  }

  /** Memory holds the header list `bs`. */
  ghost predicate Lists(mem: Memory, bs: seq<Block>) {
    forall i {:trigger HeaderAt(mem, bs, i)} :: 0 <= i < |bs| ==> HeaderAt(mem, bs, i)
  }

  /** Headers and links lie on word boundaries. */
  ghost predicate Aligned(bs: seq<Block>) {
    forall i :: 0 <= i < |bs| ==> AlignedBlock(bs[i])
  }

  ghost predicate AlignedBlock(b: Block) {
    b.addr % 4 == 0 && b.prev % 4 == 0 && (b.lenth - b.remain) % 4 == 0
  }

  function PutHeader(mem: Memory, x: nat, base: nat, lenth: nat, remain: nat, prev: nat, next: nat): Memory {
    var m := Put(Put(Put(mem, x + BASE, base), x + LENTH, lenth), x + REMAIN, remain);
    Put(Put(Put(m, x + PREV, prev), x + NEXT, next), x, MAGIC)
  }

  /** What an allocation from the block at `at` does to memory, word by word. */
  function Taken(mem: Memory, at: nat, lenth: nat): (r: (Memory, nat))
    requires lenth <= At(mem, at + REMAIN) <= At(mem, at + LENTH) && HEADER <= At(mem, at + BASE)
  {
    var remain := At(mem, at + REMAIN);
    var offset := At(mem, at + LENTH) - remain;
    var ptr := At(mem, at + BASE) + offset;
    if offset == 0 then (Put(mem, at + REMAIN, remain - lenth), ptr)
    else
      var y := ptr - HEADER;
      var m := PutHeader(mem, y, ptr, remain, remain - lenth, at, At(mem, at + NEXT));
      (Put(Put(Put(m, at + LENTH, offset), at + REMAIN, 0), at + NEXT, y), ptr)
  }

  /** What freeing the block at `at` does to memory, word by word. */
  function Freed(mem: Memory, at: nat): Memory {
    var prev, next := At(mem, at + PREV), At(mem, at + NEXT);
    var m := Put(mem, at + REMAIN, At(mem, at + LENTH));
    var m := if prev == 0 then m else Merge(m, prev, at);
    var to := if prev != 0 then prev else at;
    if next != 0 && At(m, next + LENTH) == At(m, next + REMAIN) then Absorb(m, to, next) else m
  }

  /** The block at `at` merged into the one at `to`. */
  function Merge(mem: Memory, to: nat, at: nat): Memory {
    var m := Put(mem, to + LENTH, (At(mem, to + LENTH) + At(mem, at + LENTH)) % WORD);
    var m := Put(m, to + REMAIN, (At(m, to + REMAIN) + At(m, at + REMAIN)) % WORD);
    Put(m, to + NEXT, At(m, at + NEXT))
  }

  /** The idle block at `next` merged into the one at `to`. */
  function Absorb(mem: Memory, to: nat, next: nat): Memory {
    var m := Put(mem, to + NEXT, At(mem, next + NEXT));
    var m := Put(m, to + LENTH, (At(m, to + LENTH) + At(m, next + LENTH)) % WORD);
    Put(m, to + REMAIN, At(m, next + REMAIN))
  }

  class Pool {
    var mem: Memory
    var head: nat
    ghost var blocks: seq<Block>
    ghost var stop: nat

    /** A well-formed pool whose header list is `blocks`. */
    ghost predicate Valid()
      reads this
    {
      Lists(mem, blocks) && PoolOk(blocks, head, stop) && Aligned(blocks)
    }

    constructor ()
      ensures head == 0
    {
      mem, head, blocks, stop := map[], 0, [], 0;
    }

    /** Lays out one idle block over `size` bytes at `addr`. The result is a
        usable pool if a header still fits after the address is aligned. */
    method Create(addr: nat, size: nat) returns (code: Code)
      requires addr + size <= ERROR_PTRS && 0 < addr
      modifies this
      ensures code == if size <= HEADER || old(head) != 0 then Invalid else Normal
      ensures code == Invalid ==> mem == old(mem) && head == old(head)
      ensures code == Normal ==>
        && head == Align4(addr) && head % 4 == 0 && addr <= head < addr + 4 && stop == addr + size
        && blocks == [Block(head, size - (head - addr), size - (head - addr), 0)]
        && Lists(mem, blocks)
        && (Valid() <==> size >= HEADER + (head - addr))
    {
      if size <= HEADER || head != 0 {
        return Invalid;
      }
      hide At, PutHeader, Lists, PoolOk, Aligned, Align4;
      AlignsUp(addr);
      ghost var before := mem;
      head := Align4(addr);
      var lenth := size - (head - addr);
      WriteHeader(head, head + HEADER, lenth, lenth, 0, 0);
      blocks, stop := [Block(head, lenth, lenth, 0)], addr + size;
      CreatedLists(before, head, lenth);
      CreatedOk(head, lenth);
      return Normal;
    }

    /** Walks the headers for the first block with room. */
    method FirstSpare(lenth: nat) returns (at: nat, ghost i: nat)
      requires Valid()
      ensures at == if FirstFit(blocks, lenth) < |blocks| then blocks[FirstFit(blocks, lenth)].addr else 0
      ensures at != 0 <==> FirstFit(blocks, lenth) < |blocks|
      ensures i == FirstFit(blocks, lenth)
    {
      hide Adjacent, Aligned;
      at, i := head, 0;
      while at != 0 && At(mem, at + REMAIN) < lenth
        invariant i <= |blocks| && at == (if i < |blocks| then blocks[i].addr else 0)
        invariant forall j :: 0 <= j < i ==> blocks[j].remain < lenth
        decreases |blocks| - i
      {
        assert HeaderAt(mem, blocks, i);
        at := At(mem, at + NEXT);
        i := i + 1;
      }
      if i < |blocks| {
        assert HeaderAt(mem, blocks, i);
        BlockInArena(blocks, head, stop, i);
        FirstFitIs(blocks, lenth, i);
      }
    }

    /** Writes the six fields of a new header. */
    method WriteHeader(x: nat, base: nat, lenth: nat, remain: nat, prev: nat, next: nat)
      modifies this`mem
      ensures mem == PutHeader(old(mem), x, base, lenth, remain, prev, next)
    {
      hide At, Put;
      mem := Put(mem, x + BASE, base);
      mem := Put(mem, x + LENTH, lenth);
      mem := Put(mem, x + REMAIN, remain);
      mem := Put(mem, x + PREV, prev);
      mem := Put(mem, x + NEXT, next);
      mem := Put(mem, x, MAGIC);
    }

    /** Cuts the free space of the block at `at`, or splits a new block off. */
    method Take(at: nat, lenth: nat) returns (ptr: nat)
      requires lenth <= At(mem, at + REMAIN) <= At(mem, at + LENTH) && HEADER <= At(mem, at + BASE)
      modifies this`mem
      ensures mem == Taken(old(mem), at, lenth).0 && ptr == Taken(old(mem), at, lenth).1
    {
      hide At, Put, PutHeader;
      var remain := At(mem, at + REMAIN);
      var offset := At(mem, at + LENTH) - remain;
      ptr := At(mem, at + BASE) + offset;
      if offset != 0 {
        var y, next := ptr - HEADER, At(mem, at + NEXT);
        WriteHeader(y, ptr, remain, remain - lenth, at, next);
        mem := Put(mem, at + LENTH, offset);
        mem := Put(mem, at + REMAIN, 0);
        mem := Put(mem, at + NEXT, y);
      } else {
        mem := Put(mem, at + REMAIN, remain - lenth);
      }
    }

    /** Allocates by rewriting headers; no payload word of a live allocation is
        touched. */
    method AllocSpare(size: nat) returns (ptr: nat)
      requires Valid() && size <= MAX_REQUEST
      modifies this`mem, this`blocks
      ensures Valid()
      ensures blocks == Alloc(old(blocks), Need(size)).0 && ptr == Alloc(old(blocks), Need(size)).1
      ensures forall x :: Payload(old(blocks), x) ==> At(mem, x) == At(old(mem), x)
    {
      hide Tiled, Lists, Aligned, Taken, Alloc, Payload, FirstFit;
      var lenth := (Align4(size) + HEADER) % WORD;
      NeedCovers(size);
      PoolSizes(blocks, head, stop);
      AllocOk(blocks, head, stop, lenth);
      AllocAligned(blocks, lenth);
      var at, i := FirstSpare(lenth);
      AllocFails(blocks, lenth);
      if at == 0 {
        return 0;
      }
      TakenLists(mem, blocks, head, stop, i, lenth);
      forall x | Payload(blocks, x) ensures At(Taken(mem, at, lenth).0, x) == At(mem, x) {
        TakenKeeps(mem, blocks, head, stop, i, lenth, x);
      }
      ptr := Take(at, lenth);
      blocks := Alloc(blocks, lenth).0;
    }

    /** The block of an allocation of this pool, or null. */
    method CheckEmploy(ptr: nat) returns (at: nat)
      requires Valid()
      ensures at == if Find(blocks, ptr) < |blocks| then ptr - HEADER else 0
    {
      hide Adjacent, Aligned;
      if Find(blocks, ptr) < |blocks| {
        assert HeaderAt(mem, blocks, Find(blocks, ptr));
        NoNullBlock(blocks, head, stop, ptr);
      }
      if ptr <= HEADER || At(mem, ptr - HEADER) != MAGIC {
        return 0;
      }
      var start := head;
      ghost var i := 0;
      while start != 0 && At(mem, start + BASE) != ptr
        invariant i <= |blocks| && start == (if i < |blocks| then blocks[i].addr else 0)
        invariant forall j :: 0 <= j < i ==> blocks[j].addr + HEADER != ptr
        decreases |blocks| - i
      {
        assert HeaderAt(mem, blocks, i);
        start := At(mem, start + NEXT);
        i := i + 1;
      }
      if i < |blocks| {
        assert HeaderAt(mem, blocks, i);
        BlockInArena(blocks, head, stop, i);
        FindIs(blocks, ptr, i);
      }
      return if start != 0 then ptr - HEADER else 0;
    }

    /** Frees an allocation, and does nothing for any other pointer. The list in
        memory becomes what `Free` says if and only if the back link is harmless;
        when it is true the pool is well-formed again, and no payload word of
        another live allocation is touched. */
    method FreeEmploy(ptr: nat)
      requires Valid()
      modifies this`mem, this`blocks
      ensures blocks == Free(old(blocks), ptr)
      ensures ptr == 0 || Find(old(blocks), ptr) == |old(blocks)| ==> mem == old(mem) && blocks == old(blocks) && Valid()
      ensures var i := Find(old(blocks), ptr);
        ptr != 0 && i < |old(blocks)| ==> (Lists(mem, blocks) <==> Harmless(old(blocks), i))
      ensures var i := Find(old(blocks), ptr);
        i < |old(blocks)| && BackLinkTrue(old(blocks), i) ==>
          Valid() && forall x :: Payload(old(blocks), x) ==> At(mem, x) == At(old(mem), x)
      ensures var i := Find(old(blocks), ptr);
        ptr != 0 && i < |old(blocks)| && Words(old(mem)) ==>
          ((forall x: nat :: Payload(old(blocks), x) ==> At(mem, x) == At(old(mem), x))
           <==> PayloadSafe(old(mem), old(blocks), i))
    {
      hide Tiled, Lists, Aligned, FreeAt, Freed, Find, Harmless, Payload, PayloadSafe, Words, At;
      if ptr == 0 {
        NoNullBlock(blocks, head, stop, ptr);
        return;
      }
      var at := CheckEmploy(ptr);
      if at == 0 {
        NoNullBlock(blocks, head, stop, ptr);
        return;
      }
      ghost var i := Find(blocks, ptr);
      FreedListsIff(mem, blocks, head, stop, i);
      if Words(mem) {
        FreedPayloadIff(mem, blocks, head, stop, i);
      }
      if BackLinkTrue(blocks, i) {
        TrueIsHarmless(blocks, head, stop, i);
        FreeKeeps(blocks, head, stop, i);
        FreeAligned(blocks, head, stop, i);
        forall x | Payload(blocks, x) ensures At(Freed(mem, at), x) == At(mem, x) {
          FreedKeeps(mem, blocks, head, stop, i, x);
        }
      }
      Unlink(at);
      blocks := FreeAt(blocks, i);
    }

    method Unlink(at: nat)
      modifies this`mem
      ensures mem == Freed(old(mem), at)
    {
      hide At, Put;
      var prev, next := At(mem, at + PREV), At(mem, at + NEXT);
      var to := at;
      mem := Put(mem, at + REMAIN, At(mem, at + LENTH));
      if prev != 0 {
        mem := Put(mem, prev + LENTH, (At(mem, prev + LENTH) + At(mem, at + LENTH)) % WORD);
        mem := Put(mem, prev + REMAIN, (At(mem, prev + REMAIN) + At(mem, at + REMAIN)) % WORD);
        mem := Put(mem, prev + NEXT, At(mem, at + NEXT));
        to := prev;
      }
      if next != 0 {
        if At(mem, next + LENTH) == At(mem, next + REMAIN) {
          mem := Put(mem, to + NEXT, At(mem, next + NEXT));
          mem := Put(mem, to + LENTH, (At(mem, to + LENTH) + At(mem, next + LENTH)) % WORD);
          mem := Put(mem, to + REMAIN, At(mem, next + REMAIN));
        }
      }
    }
  }

  // ------------------------------------------------------------ the blocks

  lemma NoNullBlock(bs: seq<Block>, a: nat, stop: nat, ptr: nat)
    requires PoolOk(bs, a, stop)
    ensures Find(bs, ptr) < |bs| ==> ptr > HEADER
  {
    if Find(bs, ptr) < |bs| {
      BlockInArena(bs, a, stop, Find(bs, ptr));
    }
  }

  lemma PoolSizes(bs: seq<Block>, a: nat, stop: nat)
    requires PoolOk(bs, a, stop)
    ensures forall i :: 0 <= i < |bs| ==> bs[i].remain <= bs[i].lenth
  {
    forall i | 0 <= i < |bs| ensures bs[i].remain <= bs[i].lenth {
      assert BlockOk(bs[i], i);
    }
  }

  lemma AllocFails(bs: seq<Block>, need: nat)
    requires forall i :: 0 <= i < |bs| ==> bs[i].remain <= bs[i].lenth
    ensures FirstFit(bs, need) == |bs| ==> Alloc(bs, need) == (bs, 0)
  {}

  lemma TakenAligned(b: Block, need: nat)
    requires AlignedBlock(b) && need % 4 == 0 && need <= b.remain <= b.lenth
    ensures b.lenth == b.remain ==> AlignedBlock(b.(remain := b.remain - need))
    ensures var used := b.lenth - b.remain;
      && AlignedBlock(b.(lenth := used, remain := 0))
      && AlignedBlock(Block(b.addr + used, b.remain, b.remain - need, b.addr))
  {}

  lemma AllocAligned(bs: seq<Block>, need: nat)
    requires Aligned(bs) && need % 4 == 0
    requires forall i :: 0 <= i < |bs| ==> bs[i].remain <= bs[i].lenth
    ensures Aligned(Alloc(bs, need).0)
  {
    hide FirstFit, AlignedBlock;
    var i, r := FirstFit(bs, need), Alloc(bs, need).0;
    forall k | 0 <= k < |r| ensures AlignedBlock(r[k]) {
      if |r| > |bs| && k > i + 1 {
        assert r[k] == bs[k - 1];
      } else if i < |bs| {
        assert AlignedBlock(bs[i]);
        TakenAligned(bs[i], need);
      }
    }
  }

  lemma FreeAligned(bs: seq<Block>, a: nat, stop: nat, i: nat)
    requires PoolOk(bs, a, stop) && Aligned(bs) && i < |bs| && BackLinkTrue(bs, i)
    ensures Aligned(FreeAt(bs, i))
  {
    var r := FreeAt(bs, i);
    if i > 0 {
      FreeTrue(bs, a, stop, i);
    }
    forall k | 0 <= k < |r| ensures AlignedBlock(r[k]) {
      assert AlignedBlock(bs[if i > 0 && k >= i then k + 1 else k]);
    }
  }

  /** `x` is a payload word of a live allocation. */
  ghost predicate Payload(bs: seq<Block>, x: nat) {
    exists k :: 0 <= k < |bs| && InPayload(bs[k], x)
  }

  ghost predicate InPayload(b: Block, x: nat) {
    b.addr + HEADER <= x < b.addr + b.lenth - b.remain
  }

  /** The six words of a header. */
  predicate InHeader(b: Block, x: nat) {
    b.addr <= x <= b.addr + NEXT
  }

  lemma HeaderNotPayload(bs: seq<Block>, a: nat, stop: nat, k: nat, x: nat)
    requires PoolOk(bs, a, stop) && k < |bs| && Payload(bs, x)
    ensures !InHeader(bs[k], x)
  {
    var j :| 0 <= j < |bs| && InPayload(bs[j], x);
    assert BlockOk(bs[j], j) && BlockOk(bs[k], k);
    if j != k {
      BlocksApart(bs, a, stop, j, k);
    }
  }

  /** The free space of block `i`. */
  lemma SpareNotPayload(bs: seq<Block>, a: nat, stop: nat, i: nat, x: nat)
    requires PoolOk(bs, a, stop) && i < |bs| && Payload(bs, x)
    ensures !(bs[i].addr + bs[i].lenth - bs[i].remain <= x < bs[i].addr + bs[i].lenth)
  {
    var j :| 0 <= j < |bs| && InPayload(bs[j], x);
    assert BlockOk(bs[j], j) && BlockOk(bs[i], i);
    if j != i {
      BlocksApart(bs, a, stop, j, i);
    }
  }

  // --------------------------------------------------------------- creation

  lemma AlignsUp(n: nat)
    requires n + 3 < WORD
    ensures Align4(n) % 4 == 0 && n <= Align4(n) < n + 4
  {}

  lemma CreatedLists(mem: Memory, a: nat, lenth: nat)
    ensures Lists(PutHeader(mem, a, a + HEADER, lenth, lenth, 0, 0), [Block(a, lenth, lenth, 0)])
  {
    hide At, PutHeader;
    PutHeaderAt(mem, a, a + HEADER, lenth, lenth, 0, 0, a);
    PutHeaderAt(mem, a, a + HEADER, lenth, lenth, 0, 0, a + BASE);
    PutHeaderAt(mem, a, a + HEADER, lenth, lenth, 0, 0, a + LENTH);
    PutHeaderAt(mem, a, a + HEADER, lenth, lenth, 0, 0, a + REMAIN);
    PutHeaderAt(mem, a, a + HEADER, lenth, lenth, 0, 0, a + PREV);
    PutHeaderAt(mem, a, a + HEADER, lenth, lenth, 0, 0, a + NEXT);
  }

  lemma CreatedOk(a: nat, lenth: nat)
    requires 0 < a && a + lenth <= ERROR_PTRS && a % 4 == 0
    ensures var bs := [Block(a, lenth, lenth, 0)];
      Aligned(bs) && (PoolOk(bs, a, a + lenth) <==> lenth >= HEADER)
  {
    assert PoolOk([Block(a, lenth, lenth, 0)], a, a + lenth) ==> BlockOk(Block(a, lenth, lenth, 0), 0);
  }

  // ------------------------------------------------------------- allocation

  lemma HeaderIsAt(mem: Memory, bs: seq<Block>, i: nat)
    requires Lists(mem, bs) && i < |bs|
    ensures Written(mem, bs[i], NextOf(bs, i))
  {
    assert HeaderAt(mem, bs, i);
  }

  /** Taking space through the words of memory does to the list what `Alloc`
      says. */
  lemma TakenLists(mem: Memory, bs: seq<Block>, a: nat, stop: nat, i: nat, need: nat)
    requires Lists(mem, bs) && PoolOk(bs, a, stop) && i == FirstFit(bs, need) && i < |bs| && HEADER <= need
    ensures var at := bs[i].addr;
      && need <= At(mem, at + REMAIN) <= At(mem, at + LENTH) && HEADER <= At(mem, at + BASE)
      && Lists(Taken(mem, at, need).0, Alloc(bs, need).0)
      && Taken(mem, at, need).1 == Alloc(bs, need).1
  {
    hide Tiled, Lists;
    HeaderIsAt(mem, bs, i);
    assert BlockOk(bs[i], i);
    BlocksAlone(bs, a, stop, i);
    var b := bs[i];
    var used := b.lenth - b.remain;
    if used == 0 {
      CutLists(mem, bs, i, need);
    } else {
      SplitLists(mem, bs, i, Block(b.addr + used, b.remain, b.remain - need, b.addr));
    }
  }

  /** No other header comes near block `i`. */
  ghost predicate Alone(bs: seq<Block>, i: nat)
    requires i < |bs|
  {
    forall k :: 0 <= k < |bs| && k != i ==>
      bs[k].addr + HEADER <= bs[i].addr || bs[i].addr + bs[i].lenth <= bs[k].addr
  }

  lemma BlocksAlone(bs: seq<Block>, a: nat, stop: nat, i: nat)
    requires PoolOk(bs, a, stop) && i < |bs|
    ensures Alone(bs, i) && HEADER <= bs[i].lenth
  {
    assert BlockOk(bs[i], i);
    forall k | 0 <= k < |bs| && k != i
      ensures bs[k].addr + HEADER <= bs[i].addr || bs[i].addr + bs[i].lenth <= bs[k].addr
    {
      assert BlockOk(bs[k], k);
      BlocksApart(bs, a, stop, i, k);
    }
  }

  /** Two memories that agree on the words of a header. */
  lemma SameHeader(mem: Memory, m: Memory, b: Block, next: nat)
    requires Written(mem, b, next) && forall x :: InHeader(b, x) ==> At(m, x) == At(mem, x)
    ensures Written(m, b, next)
  {
    assert InHeader(b, b.addr) && InHeader(b, b.addr + BASE) && InHeader(b, b.addr + LENTH);
    assert InHeader(b, b.addr + REMAIN) && InHeader(b, b.addr + PREV) && InHeader(b, b.addr + NEXT);
  }

  lemma CutLists(mem: Memory, bs: seq<Block>, i: nat, need: nat)
    requires Lists(mem, bs) && i < |bs| && Alone(bs, i) && HEADER <= bs[i].lenth && need <= bs[i].remain
    ensures Lists(Put(mem, bs[i].addr + REMAIN, bs[i].remain - need), bs[i := bs[i].(remain := bs[i].remain - need)])
  {
    hide At, Put;
    forall z: nat ensures At(Put(mem, bs[i].addr + REMAIN, bs[i].remain - need), z) ==
      if z == bs[i].addr + REMAIN then bs[i].remain - need else At(mem, z)
    {
      AtPut(mem, bs[i].addr + REMAIN, bs[i].remain - need, z);
    }
    var r, m := bs[i := bs[i].(remain := bs[i].remain - need)], Put(mem, bs[i].addr + REMAIN, bs[i].remain - need);
    forall k | 0 <= k < |r| ensures HeaderAt(m, r, k) {
      assert HeaderAt(mem, bs, k);
      assert NextOf(r, k) == NextOf(bs, k);
      if k != i {
        SameHeader(mem, m, bs[k], NextOf(bs, k));
      }
    }
  }

  /** Writing the two headers of a split keeps memory and list in step. */
  lemma SplitLists(mem: Memory, bs: seq<Block>, i: nat, y: Block)
    requires Lists(mem, bs) && i < |bs| && Alone(bs, i) && bs[i].remain < bs[i].lenth
    requires HEADER <= bs[i].lenth - bs[i].remain && y.remain <= bs[i].remain && HEADER <= bs[i].remain - y.remain
    requires y == Block(bs[i].addr + bs[i].lenth - bs[i].remain, bs[i].remain, y.remain, bs[i].addr)
    ensures var at := bs[i].addr; var need := bs[i].remain - y.remain;
      && need <= At(mem, at + REMAIN) <= At(mem, at + LENTH) && HEADER <= At(mem, at + BASE)
      && Lists(Taken(mem, at, need).0, Split(bs, i, bs[i].(lenth := bs[i].lenth - bs[i].remain, remain := 0), y))
  {
    hide Lists, Taken, Split, Alone, At, SplitWord;
    HeaderIsAt(mem, bs, i);
    var need := bs[i].remain - y.remain;
    var m := Taken(mem, bs[i].addr, need).0;
    var x := bs[i].(lenth := bs[i].lenth - bs[i].remain, remain := 0);
    forall z: nat ensures At(m, z) == SplitWord(mem, bs[i], NextOf(bs, i), y, z) {
      TakenSplits(mem, bs[i], NextOf(bs, i), y, z);
    }
    SplitWords(mem, m, bs[i], NextOf(bs, i), y);
    SplitOthers(mem, m, bs, i, x, y) by {
      SplitAway(mem, bs, i, y);
    }
  }

  lemma PutHeaderAt(mem: Memory, x: nat, base: nat, lenth: nat, remain: nat, prev: nat, next: nat, z: nat)
    ensures At(PutHeader(mem, x, base, lenth, remain, prev, next), z) ==
      if z == x then MAGIC
      else if z == x + BASE then base
      else if z == x + LENTH then lenth
      else if z == x + REMAIN then remain
      else if z == x + PREV then prev
      else if z == x + NEXT then next
      else At(mem, z)
  {
    hide At, Put;
    var m1 := Put(mem, x + BASE, base);
    var m2 := Put(m1, x + LENTH, lenth);
    var m3 := Put(m2, x + REMAIN, remain);
    var m4 := Put(m3, x + PREV, prev);
    AtPut(mem, x + BASE, base, z);
    AtPut(m1, x + LENTH, lenth, z);
    AtPut(m2, x + REMAIN, remain, z);
    AtPut(m3, x + PREV, prev, z);
    AtPut(m4, x + NEXT, next, z);
    AtPut(Put(m4, x + NEXT, next), x, MAGIC, z);
  }

  /** The word at `z` once `y` is split off block `b`: it belongs to the new
      header, it is one of three fields of the old one, or it is as before. */
  function SplitWord(mem: Memory, b: Block, next: nat, y: Block, z: nat): int {
    if z == b.addr + LENTH then b.lenth - y.lenth
    else if z == b.addr + REMAIN then 0
    else if z == b.addr + NEXT then y.addr
    else if z == y.addr then MAGIC
    else if z == y.addr + BASE then y.addr + HEADER
    else if z == y.addr + LENTH then y.lenth
    else if z == y.addr + REMAIN then y.remain
    else if z == y.addr + PREV then y.prev
    else if z == y.addr + NEXT then next
    else At(mem, z)
  }

  ghost predicate Splits(b: Block, y: Block) {
    && HEADER <= b.lenth - b.remain && b.remain <= b.lenth && y.remain <= b.remain
    && y == Block(b.addr + b.lenth - b.remain, b.remain, y.remain, b.addr)
  }

  lemma TakenSplits(mem: Memory, b: Block, next: nat, y: Block, z: nat)
    requires Written(mem, b, next) && Splits(b, y)
    ensures At(Taken(mem, b.addr, b.remain - y.remain).0, z) == SplitWord(mem, b, next, y, z)
  {
    hide At, Put, PutHeader;
    var offset := b.lenth - b.remain;
    var m := PutHeader(mem, y.addr, y.addr + HEADER, y.lenth, y.remain, y.prev, next);
    var m1 := Put(m, b.addr + LENTH, offset);
    var m2 := Put(m1, b.addr + REMAIN, 0);
    PutHeaderAt(mem, y.addr, y.addr + HEADER, y.lenth, y.remain, y.prev, next, z);
    AtPut(m, b.addr + LENTH, offset, z);
    AtPut(m1, b.addr + REMAIN, 0, z);
    AtPut(m2, b.addr + NEXT, y.addr, z);
    assert Taken(mem, b.addr, b.remain - y.remain).0 == Put(m2, b.addr + NEXT, y.addr);
  }

  /** Both headers are in place, and no other word has changed. */
  lemma SplitWords(mem: Memory, m: Memory, b: Block, next: nat, y: Block)
    requires Written(mem, b, next) && Splits(b, y)
    requires forall z: nat {:trigger At(m, z)} :: At(m, z) == SplitWord(mem, b, next, y, z)
    ensures Written(m, b.(lenth := b.lenth - b.remain, remain := 0), y.addr) && Written(m, y, next)
    ensures forall z :: !InHeader(b, z) && !InHeader(y, z) ==> At(m, z) == At(mem, z)
  {
    hide At;
  }

  /** The other headers keep clear of both. */
  lemma SplitAway(mem: Memory, bs: seq<Block>, i: nat, y: Block)
    requires i < |bs| && Alone(bs, i) && y.addr + HEADER <= bs[i].addr + bs[i].lenth && bs[i].addr + HEADER <= y.addr
    ensures forall k, z {:trigger InHeader(bs[k], z)} :: 0 <= k < |bs| && k != i && InHeader(bs[k], z) ==>
      !InHeader(bs[i], z) && !InHeader(y, z)
  {}

  lemma SplitOthers(mem: Memory, m: Memory, bs: seq<Block>, i: nat, x: Block, y: Block)
    requires Lists(mem, bs) && i < |bs| && x.addr == bs[i].addr
    requires Written(m, x, y.addr) && Written(m, y, NextOf(bs, i))
    requires forall k, z {:trigger InHeader(bs[k], z)} :: 0 <= k < |bs| && k != i && InHeader(bs[k], z) ==>
      At(m, z) == At(mem, z)
    ensures Lists(m, Split(bs, i, x, y))
  {
    var r := Split(bs, i, x, y);
    forall k | 0 <= k < |r| ensures HeaderAt(m, r, k) {
      if k < i {
        assert r[k] == bs[k] && NextOf(r, k) == NextOf(bs, k) && HeaderAt(mem, bs, k);
        SameHeader(mem, m, bs[k], NextOf(bs, k));
      } else if k > i + 1 {
        assert r[k] == bs[k - 1] && NextOf(r, k) == NextOf(bs, k - 1) && HeaderAt(mem, bs, k - 1);
        SameHeader(mem, m, bs[k - 1], NextOf(bs, k - 1));
      } else {
        assert NextOf(r, i) == y.addr && NextOf(r, i + 1) == NextOf(bs, i);
      }
    }
  }

  /** Allocation writes no payload word of a live allocation. */
  lemma TakenKeeps(mem: Memory, bs: seq<Block>, a: nat, stop: nat, i: nat, need: nat, x: nat)
    requires Lists(mem, bs) && PoolOk(bs, a, stop) && i < |bs| && HEADER <= need <= bs[i].remain && Payload(bs, x)
    ensures var at := bs[i].addr;
      && need <= At(mem, at + REMAIN) <= At(mem, at + LENTH) && HEADER <= At(mem, at + BASE)
      && At(Taken(mem, at, need).0, x) == At(mem, x)
  {
    hide Tiled, Lists, Payload, At, Put;
    HeaderIsAt(mem, bs, i);
    assert BlockOk(bs[i], i);
    HeaderNotPayload(bs, a, stop, i, x);
    SpareNotPayload(bs, a, stop, i, x);
    var b := bs[i];
    if b.remain < b.lenth {
      TakenSplits(mem, b, NextOf(bs, i), Block(b.addr + b.lenth - b.remain, b.remain, b.remain - need, b.addr), x);
    } else {
      AtPut(mem, b.addr + REMAIN, b.remain - need, x);
    }
  }

  // ------------------------------------------------------------------ free

  /** A listed header starts so near to `p` that the fields written there as
      `lenth`, `remain` and `next` belong to it. */
  ghost predicate Hit(b: Block, p: nat) {
    b.addr != p && p <= b.addr + 12 && b.addr <= p + 20
  }

  /** The back link of block `i` is null, names a listed block, or leads to
      where no listed header is. */
  ghost predicate Harmless(bs: seq<Block>, i: nat)
    requires i < |bs|
  {
    var p := bs[i].prev;
    p == 0 || (exists k :: 0 <= k < |bs| && bs[k].addr == p) || forall k :: 0 <= k < |bs| ==> !Hit(bs[k], p)
  }

  /** The word at `z` once block `b` is freed: at most four change. */
  function FreedWord(mem: Memory, b: Block, next: nat, z: nat): nat {
    var p := b.prev;
    if p != 0 && z == p + NEXT then next
    else if p != 0 && (z == p + LENTH || z == p + REMAIN) then (At(mem, z) + b.lenth) % WORD
    else if z == b.addr + REMAIN then b.lenth
    else At(mem, z)
  }

  ghost predicate FreedWords(mem: Memory, m: Memory, b: Block, next: nat) {
    forall z: nat {:trigger At(m, z)} :: At(m, z) == FreedWord(mem, b, next, z)
  }

  /** Freeing writes no more than that: in a well-formed pool the block behind
      is never idle, wherever the link leads. */
  lemma FreedIs(mem: Memory, bs: seq<Block>, a: nat, stop: nat, i: nat)
    requires Lists(mem, bs) && PoolOk(bs, a, stop) && i < |bs|
    ensures FreedWords(mem, Freed(mem, bs[i].addr), bs[i], NextOf(bs, i))
  {
    HeaderIsAt(mem, bs, i);
    assert BlockOk(bs[i], i);
    if i + 1 < |bs| {
      HeaderIsAt(mem, bs, i + 1);
      SuccessorNeverIdle(bs, a, stop, i);
      AddrsRise(bs, i, i + 1);
    }
    hide PoolOk, Lists, Freed, At, FreedWord;
    forall z: nat ensures At(Freed(mem, bs[i].addr), z) == FreedWord(mem, bs[i], NextOf(bs, i), z) {
      FreedIsWord(mem, bs[i], NextOf(bs, i), z);
    }
  }

  lemma FreedIsWord(mem: Memory, b: Block, next: nat, z: nat)
    requires Written(mem, b, next) && (b.prev == 0 || b.prev + HEADER <= b.addr)
    requires next != 0 ==> next >= b.addr + HEADER && At(mem, next + LENTH) != At(mem, next + REMAIN)
    ensures At(Freed(mem, b.addr), z) == FreedWord(mem, b, next, z)
  {
    hide At, Put, Absorb, Merge;
    var m := Put(mem, b.addr + REMAIN, b.lenth);
    forall x: nat ensures At(m, x) == if x == b.addr + REMAIN then b.lenth else At(mem, x) {
      AtPut(mem, b.addr + REMAIN, b.lenth, x);
    }
    if b.prev != 0 {
      MergeWord(m, b.prev, b.addr, z);
      MergeWord(m, b.prev, b.addr, next + LENTH);
      MergeWord(m, b.prev, b.addr, next + REMAIN);
    }
  }

  lemma MergeWord(mem: Memory, to: nat, at: nat, z: nat)
    requires to + HEADER <= at
    ensures At(Merge(mem, to, at), z) ==
      if z == to + NEXT then At(mem, at + NEXT)
      else if z == to + LENTH then (At(mem, z) + At(mem, at + LENTH)) % WORD
      else if z == to + REMAIN then (At(mem, z) + At(mem, at + REMAIN)) % WORD
      else At(mem, z)
  {
    hide At, Put;
    var w1 := (At(mem, to + LENTH) + At(mem, at + LENTH)) % WORD;
    var m1 := Put(mem, to + LENTH, w1);
    forall x: nat ensures At(m1, x) == if x == to + LENTH then w1 else At(mem, x) {
      AtPut(mem, to + LENTH, w1, x);
    }
    var w2 := (At(m1, to + REMAIN) + At(m1, at + REMAIN)) % WORD;
    var m2 := Put(m1, to + REMAIN, w2);
    forall x: nat ensures At(m2, x) == if x == to + REMAIN then w2 else At(m1, x) {
      AtPut(m1, to + REMAIN, w2, x);
    }
    AtPut(m2, to + NEXT, At(m2, at + NEXT), z);
  }

  /** Freeing through the words of memory does to the list what `FreeAt` says if
      and only if the back link is harmless. */
  lemma FreedListsIff(mem: Memory, bs: seq<Block>, a: nat, stop: nat, i: nat)
    requires Lists(mem, bs) && PoolOk(bs, a, stop) && Aligned(bs) && i < |bs|
    ensures Lists(Freed(mem, bs[i].addr), FreeAt(bs, i)) <==> Harmless(bs, i)
  {
    hide Tiled, Lists, Freed, Aligned;
    FreedIs(mem, bs, a, stop, i);
    var m, p := Freed(mem, bs[i].addr), bs[i].prev;
    assert BlockOk(bs[i], i);
    var j := Find(bs[..i], p + HEADER);
    if p == 0 {
      MarkLists(mem, bs, a, stop, i, m);
    } else if j < i {
      assert bs[..i][j] == bs[j];
      MergeLists(mem, bs, a, stop, j, i, m);
    } else {
      OffList(bs, a, stop, i);
      if k :| 0 <= k < |bs| && Hit(bs[k], p) {
        HitBreaks(mem, bs, a, stop, i, k, m);
      } else {
        MarkLists(mem, bs, a, stop, i, m);
      }
    }
  }

  lemma OffList(bs: seq<Block>, a: nat, stop: nat, i: nat)
    requires PoolOk(bs, a, stop) && 0 < i < |bs| && Find(bs[..i], bs[i].prev + HEADER) == i
    ensures forall k :: 0 <= k < |bs| ==> bs[k].addr != bs[i].prev
  {
    assert BlockOk(bs[i], i);
    forall k | 0 <= k < |bs| ensures bs[k].addr != bs[i].prev {
      if k < i {
        assert bs[..i][k] == bs[k];
      } else if k > i {
        AddrsRise(bs, i, k);
      }
    }
  }

  /** A header that neither the freed block nor its link comes near is left as
      it was. */
  lemma FreedElsewhere(mem: Memory, m: Memory, b: Block, next: nat, q: Block, qNext: nat)
    requires FreedWords(mem, m, b, next) && Written(mem, q, qNext)
    requires q.addr + HEADER <= b.addr || b.addr + HEADER <= q.addr
    requires b.prev == 0 || (b.prev != q.addr && !Hit(q, b.prev))
    ensures Written(m, q, qNext)
  {
    hide At, Written;
    forall x | InHeader(q, x) ensures At(m, x) == At(mem, x) {
      assert At(m, x) == FreedWord(mem, b, next, x);
    }
    SameHeader(mem, m, q, qNext);
  }

  lemma MarkLists(mem: Memory, bs: seq<Block>, a: nat, stop: nat, i: nat, m: Memory)
    requires Lists(mem, bs) && PoolOk(bs, a, stop) && i < |bs| && FreedWords(mem, m, bs[i], NextOf(bs, i))
    requires var p := bs[i].prev; p == 0 || forall k :: 0 <= k < |bs| ==> bs[k].addr != p && !Hit(bs[k], p)
    ensures Lists(m, bs[i := bs[i].(remain := bs[i].lenth)])
  {
    BlocksAlone(bs, a, stop, i);
    assert BlockOk(bs[i], i);
    hide PoolOk, At, Hit, FreedWords;
    var r := bs[i := bs[i].(remain := bs[i].lenth)];
    forall k | 0 <= k < |r| ensures HeaderAt(m, r, k) {
      assert HeaderAt(mem, bs, k);
      assert NextOf(r, k) == NextOf(bs, k);
      if k != i {
        FreedElsewhere(mem, m, bs[i], NextOf(bs, i), bs[k], NextOf(bs, k));
      } else {
        FreedHeader(mem, m, bs[i], NextOf(bs, i));
      }
    }
  }

  /** The header of the freed block itself. */
  lemma FreedHeader(mem: Memory, m: Memory, b: Block, next: nat)
    requires Written(mem, b, next) && FreedWords(mem, m, b, next)
    requires b.prev == 0 || b.prev + HEADER <= b.addr
    ensures Written(m, b.(remain := b.lenth), next)
  {
    hide At;
  }

  /** Block `x` in the place of blocks `j` to `i`, but those between are lost. */
  function Folded(bs: seq<Block>, j: nat, i: nat, x: Block): seq<Block>
    requires j < i < |bs|
  {
    bs[..j] + [x] + bs[i + 1..]
  }

  lemma FoldedAt(bs: seq<Block>, j: nat, i: nat, x: Block, k: nat) returns (k': nat)
    requires j < i < |bs| && x.addr == bs[j].addr && k < |Folded(bs, j, i, x)|
    ensures k == j ==> NextOf(Folded(bs, j, i, x), k) == NextOf(bs, i)
    ensures k != j ==> k' < |bs| && k' != i && k' != j && Folded(bs, j, i, x)[k] == bs[k']
    ensures k != j ==> NextOf(Folded(bs, j, i, x), k) == NextOf(bs, k')
  {
    k' := if k <= j then k else k + i - j;
  }

  lemma MergeLists(mem: Memory, bs: seq<Block>, a: nat, stop: nat, j: nat, i: nat, m: Memory)
    requires Lists(mem, bs) && PoolOk(bs, a, stop) && j < i < |bs| && FreedWords(mem, m, bs[i], NextOf(bs, i))
    requires bs[i].prev == bs[j].addr
    ensures Lists(m, Folded(bs, j, i, bs[j].(lenth := bs[j].lenth + bs[i].lenth, remain := bs[j].remain + bs[i].lenth)))
  {
    MergeFits(bs, a, stop, j, i);
    BlocksAlone(bs, a, stop, i);
    BlocksAlone(bs, a, stop, j);
    hide PoolOk, At, FreedWords, Written, Lists, Folded, NextOf;
    var b, q, next := bs[i], bs[j], NextOf(bs, i);
    var x := q.(lenth := q.lenth + b.lenth, remain := q.remain + b.lenth);
    var r := Folded(bs, j, i, x);
    forall k | 0 <= k < |r| ensures HeaderAt(m, r, k) {
      var k' := FoldedAt(bs, j, i, x, k);
      if k == j {
        FoldedSelf(bs, j, i, x);
        HeaderIsAt(mem, bs, j);
        MergedHeader(mem, m, b, next, q, NextOf(bs, j));
      } else {
        HeaderIsAt(mem, bs, k');
        FreedElsewhere(mem, m, b, next, bs[k'], NextOf(bs, k'));
      }
    }
    ListsIf(m, r);
  }

  lemma FoldedSelf(bs: seq<Block>, j: nat, i: nat, x: Block)
    requires j < i < |bs|
    ensures j < |Folded(bs, j, i, x)| && Folded(bs, j, i, x)[j] == x
  {}

  lemma ListsIf(mem: Memory, bs: seq<Block>)
    requires forall k :: 0 <= k < |bs| ==> HeaderAt(mem, bs, k)
    ensures Lists(mem, bs)
  {}

  /** The header of the block that takes in the freed one. */
  lemma MergedHeader(mem: Memory, m: Memory, b: Block, next: nat, q: Block, qNext: nat)
    requires Written(mem, q, qNext) && FreedWords(mem, m, b, next) && b.prev == q.addr != 0
    requires q.addr + HEADER <= b.addr && q.remain <= q.lenth && q.lenth + b.lenth < WORD
    ensures Written(m, q.(lenth := q.lenth + b.lenth, remain := q.remain + b.lenth), next)
  {
    hide At;
  }

  /** The lengths of two blocks of the arena do not wrap when added. */
  lemma MergeFits(bs: seq<Block>, a: nat, stop: nat, j: nat, i: nat)
    requires PoolOk(bs, a, stop) && j < i < |bs|
    ensures 0 < bs[j].addr && bs[j].addr + HEADER <= bs[i].addr
    ensures bs[j].remain <= bs[j].lenth && bs[j].lenth + bs[i].lenth < WORD
  {
    AddrsRise(bs, j, i);
    BlockInArena(bs, a, stop, i);
    BlockInArena(bs, a, stop, j);
    assert BlockOk(bs[j], j);
  }

  /** A header that is hit is no longer the header of its block. */
  lemma HitBreaks(mem: Memory, bs: seq<Block>, a: nat, stop: nat, i: nat, k: nat, m: Memory)
    requires Lists(mem, bs) && PoolOk(bs, a, stop) && Aligned(bs) && i < |bs| && k < |bs|
    requires FreedWords(mem, m, bs[i], NextOf(bs, i)) && bs[i].prev != 0 && Hit(bs[k], bs[i].prev)
    ensures !Lists(m, bs[i := bs[i].(remain := bs[i].lenth)])
  {
    HitEarlier(bs, a, stop, i, k);
    NextAligned(bs, a, stop, i);
    HeaderIsAt(mem, bs, k);
    hide Lists, PoolOk, Aligned;
    var r := bs[i := bs[i].(remain := bs[i].lenth)];
    HitChanges(mem, bs[k], NextOf(bs, k), bs[i], NextOf(bs, i), m);
    assert r[k] == bs[k] && NextOf(r, k) == NextOf(bs, k);
    if Lists(m, r) {
      HeaderIsAt(m, r, k);
      assert false;
    }
  }

  lemma HitEarlier(bs: seq<Block>, a: nat, stop: nat, i: nat, k: nat)
    requires PoolOk(bs, a, stop) && Aligned(bs) && i < |bs| && k < |bs| && bs[i].prev != 0 && Hit(bs[k], bs[i].prev)
    ensures k != i && i > 0 && bs[i].prev + HEADER <= bs[i].addr
    ensures (bs[k].addr - bs[i].prev) % 4 == 0 && 0 < bs[i].lenth < WORD
    ensures bs[k].addr + HEADER < WORD && bs[k].lenth < WORD && bs[k].remain < WORD && bs[k].prev < WORD
    ensures NextOf(bs, k) < WORD
  {
    hide PoolOk, NextOf;
    assert AlignedBlock(bs[i]) && AlignedBlock(bs[k]);
    FieldsFit(bs, a, stop, i);
    FieldsFit(bs, a, stop, k);
    AddrsDistinct(bs, a, stop, i, k);
  }

  lemma AddrsDistinct(bs: seq<Block>, a: nat, stop: nat, i: nat, k: nat)
    requires PoolOk(bs, a, stop) && i < |bs| && k < |bs|
    ensures i < k ==> bs[i].addr < bs[k].addr
  {
    if i < k {
      assert BlockOk(bs[i], i);
      AddrsRise(bs, i, k);
    }
  }

  lemma FieldsFit(bs: seq<Block>, a: nat, stop: nat, k: nat)
    requires PoolOk(bs, a, stop) && k < |bs|
    ensures bs[k].addr + HEADER < WORD && 0 < bs[k].lenth < WORD && bs[k].remain < WORD && bs[k].prev < WORD
    ensures NextOf(bs, k) < WORD && (if k > 0 then bs[k].prev + HEADER <= bs[k].addr else bs[k].prev == 0)
  {
    hide Adjacent;
    assert BlockOk(bs[k], k);
    BlockInArena(bs, a, stop, k);
    if k + 1 < |bs| {
      BlockInArena(bs, a, stop, k + 1);
    }
  }

  lemma NextAligned(bs: seq<Block>, a: nat, stop: nat, i: nat)
    requires PoolOk(bs, a, stop) && Aligned(bs) && i < |bs|
    ensures NextOf(bs, i) % 4 == 0 && (NextOf(bs, i) == 0 || NextOf(bs, i) >= bs[i].addr + HEADER)
  {
    if i + 1 < |bs| {
      assert AlignedBlock(bs[i + 1]) && BlockOk(bs[i], i);
      AddrsRise(bs, i, i + 1);
    }
  }

  /** One of the three words written through the link lies in the header and
      gets another value than it had. */
  lemma HitChanges(mem: Memory, q: Block, qNext: nat, b: Block, next: nat, m: Memory)
    requires Written(mem, q, qNext) && Hit(q, b.prev) && FreedWords(mem, m, b, next) && b.prev != 0
    requires b.prev + HEADER <= b.addr && (q.addr - b.prev) % 4 == 0 && 0 < b.lenth < WORD
    requires q.addr + HEADER < WORD && q.lenth < WORD && q.remain < WORD && q.prev < WORD && qNext < WORD
    requires next % 4 == 0 && (next == 0 || next >= b.addr + HEADER)
    ensures !Written(m, q, qNext)
  {
    hide At, Written;
    var p, d := b.prev, q.addr - b.prev;
    var z := if d <= 8 then p + LENTH else if d == 12 then p + REMAIN else p + NEXT;
    assert At(m, z) == FreedWord(mem, b, next, z);
    if Written(m, q, qNext) {
      SameWord(mem, m, q, qNext, z);
      assert false;
    }
  }

  /** What the words of a header are does not depend on where it is read. */
  lemma SameWord(mem: Memory, m: Memory, q: Block, qNext: nat, z: nat)
    requires Written(mem, q, qNext) && Written(m, q, qNext) && InHeader(q, z) && (z - q.addr) % 4 == 0
    requires q.addr + HEADER < WORD && q.lenth < WORD && q.remain < WORD && q.prev < WORD && qNext < WORD
    ensures At(m, z) == At(mem, z) < WORD
    ensures z == q.addr ==> At(m, z) == MAGIC
    ensures z == q.addr + BASE ==> At(m, z) == q.addr + HEADER
  {
    hide At;
  }

  /** A true back link is harmless. */
  lemma TrueIsHarmless(bs: seq<Block>, a: nat, stop: nat, i: nat)
    requires PoolOk(bs, a, stop) && i < |bs| && BackLinkTrue(bs, i)
    ensures Harmless(bs, i)
  {
    if i > 0 {
      assert bs[i - 1].addr == bs[i].prev;
    }
  }

  /** Freeing through a true link writes no payload word of an allocation that
      stays, nor of the one given up. */
  lemma FreedKeeps(mem: Memory, bs: seq<Block>, a: nat, stop: nat, i: nat, x: nat)
    requires Lists(mem, bs) && PoolOk(bs, a, stop) && i < |bs| && BackLinkTrue(bs, i) && Payload(bs, x)
    ensures At(Freed(mem, bs[i].addr), x) == At(mem, x)
  {
    hide Tiled, Lists, Payload, Freed;
    FreedIs(mem, bs, a, stop, i);
    HeaderNotPayload(bs, a, stop, i, x);
    if i > 0 {
      HeaderNotPayload(bs, a, stop, i - 1, x);
    }
  }

  /** Every word is a 32-bit number. */
  ghost predicate Words(mem: Memory) {
    forall z: nat {:trigger At(mem, z)} :: At(mem, z) < WORD
  }

  /** Of the three words that freeing writes through the link, none is a payload
      word, but that the last may hold what is written. */
  ghost predicate PayloadSafe(mem: Memory, bs: seq<Block>, i: nat)
    requires i < |bs|
  {
    var p := bs[i].prev;
    || p == 0
    || (!Payload(bs, p + LENTH) && !Payload(bs, p + REMAIN)
        && (Payload(bs, p + NEXT) ==> At(mem, p + NEXT) == NextOf(bs, i)))
  }

  /** Freeing leaves every payload word as it is if and only if that holds, be the
      link true or not. */
  lemma FreedPayloadIff(mem: Memory, bs: seq<Block>, a: nat, stop: nat, i: nat)
    requires Lists(mem, bs) && PoolOk(bs, a, stop) && i < |bs| && Words(mem)
    ensures (forall x: nat :: Payload(bs, x) ==> At(Freed(mem, bs[i].addr), x) == At(mem, x)) <==> PayloadSafe(mem, bs, i)
  {
    hide Tiled, Lists, Payload, Freed, At;
    var m, b := Freed(mem, bs[i].addr), bs[i];
    FreedIs(mem, bs, a, stop, i);
    FieldsFit(bs, a, stop, i);
    hide PoolOk;
    if PayloadSafe(mem, bs, i) {
      forall x: nat | Payload(bs, x) ensures At(m, x) == At(mem, x) {
        HeaderNotPayload(bs, a, stop, i, x);
        assert At(m, x) == FreedWord(mem, b, NextOf(bs, i), x);
      }
    } else {
      var p := b.prev;
      assert At(m, p + LENTH) == (At(mem, p + LENTH) + b.lenth) % WORD != At(mem, p + LENTH);
      assert At(m, p + REMAIN) == (At(mem, p + REMAIN) + b.lenth) % WORD != At(mem, p + REMAIN);
      assert At(m, p + NEXT) == NextOf(bs, i);
    }
  }

  // ------------------------------------------- what a stale link may overwrite

  /** At the end of the run of `OverlapRunOpens` and `OverlapRunReuses`, freeing
      the third block writes through the link 4136 into the header at 4140: its
      base, its length and its back link change, and freeing the payload behind
      that header is ignored from then on. */
  lemma StaleLinkOverwrites(mem: Memory)
    requires Lists(mem, [Block(4096, 44, 0, 0), Block(4140, 36, 0, 4096), C1])
    ensures var bs := [Block(4096, 44, 0, 0), Block(4140, 36, 0, 4096), C1];
      && PoolOk(bs, 4096, 5120) && Aligned(bs) && Find(bs, 4200) == 2 && !Harmless(bs, 2)
    ensures var m := Freed(mem, 4176);
      && At(m, 4140 + BASE) == 5108 && At(m, 4140 + LENTH) == 980 && At(m, 4140 + PREV) == 0
      && 4164 !in [At(m, 4096 + BASE), At(m, 4140 + BASE), At(m, 4176 + BASE)]
  {
    hide At, Freed;
    var bs := [Block(4096, 44, 0, 0), Block(4140, 36, 0, 4096), C1];
    assert HeaderAt(mem, bs, 0) && HeaderAt(mem, bs, 1) && HeaderAt(mem, bs, 2);
    assert Hit(bs[1], bs[2].prev);
    FindIs(bs, 4200, 2);
    FreedIsWord(mem, C1, 0, 4140 + BASE);
    FreedIsWord(mem, C1, 0, 4140 + LENTH);
    FreedIsWord(mem, C1, 0, 4140 + PREV);
    FreedIsWord(mem, C1, 0, 4096 + BASE);
    FreedIsWord(mem, C1, 0, 4176 + BASE);
  }
}
