/**
 * Runs of the memory pool: bracketed sequences of calls, which restore the pool,
 * and two runs in which a back link goes stale, and what that costs.
 */
module MempoolRuns {
  import opened Mempool

  // --------------------------------------------------------- bracketed runs

  /** A properly bracketed sequence of calls: a request, then a bracketed
      sequence, then the free of what the request returned, and so on. */
  datatype Script = Done | Scope(size: nat, body: Script, rest: Script)

  ghost predicate Requests(s: Script) {
    s.Scope? ==> s.size <= MAX_REQUEST && Requests(s.body) && Requests(s.rest)
  }

  ghost function Play(bs: seq<Block>, a: nat, stop: nat, s: Script): (r: seq<Block>)
    requires PoolOk(bs, a, stop) && Requests(s)
    ensures r == bs
    decreases s
  {
    match s
    case Done => bs
    case Scope(size, body, rest) =>
      NeedCovers(size);
      AllocOk(bs, a, stop, Need(size));
      var (bs1, ptr) := Alloc(bs, Need(size));
      var bs2 := Play(bs1, a, stop, body);
      FreeUndoesAlloc(bs, a, stop, Need(size));
      Play(Free(bs2, ptr), a, stop, rest)
  }

  lemma UndoIdle(bs: seq<Block>, a: nat, stop: nat, need: nat)
    requires PoolOk(bs, a, stop) && need >= HEADER && need <= bs[0].remain == bs[0].lenth
    ensures var (r, ptr) := Alloc(bs, need); Free(r, ptr) == bs
  {
    FirstFitIs(bs, need, 0);
    var (r, ptr) := Alloc(bs, need);
    assert Find(r, ptr) == 0;
    assert Free(r, ptr) == r[0 := bs[0]];
  }

  lemma UndoSplit(bs: seq<Block>, a: nat, stop: nat, i: nat, r: seq<Block>, need: nat)
    requires PoolOk(r, a, stop) && i < |bs| && need <= bs[i].remain < bs[i].lenth
    requires var b := bs[i]; var used := b.lenth - b.remain;
      r == Split(bs, i, b.(lenth := used, remain := 0), Block(b.addr + used, b.remain, b.remain - need, b.addr))
    ensures Free(r, r[i + 1].addr + HEADER) == bs
  {
    hide PoolOk, Find, FreeAt;
    FindsOwn(r, a, stop, i + 1);
    FreeTrue(r, a, stop, i + 1);
    assert Merged(r, i + 1) == bs[i];
    JoinSplit(bs, i, r[i], r[i + 1]);
  }

  lemma JoinSplit(bs: seq<Block>, i: nat, x: Block, y: Block)
    requires i < |bs|
    ensures Join(Split(bs, i, x, y), i, bs[i]) == bs
  {
    var r := Split(bs, i, x, y);
    assert r[..i] == bs[..i] && r[i + 2..] == bs[i + 1..];
    assert bs == bs[..i] + [bs[i]] + bs[i + 1..];
  }

  /** Freeing what an allocation returned restores every header field of every
      block, whatever the back links of the blocks behind it say. */
  lemma {:induction false} FreeUndoesAlloc(bs: seq<Block>, a: nat, stop: nat, need: nat)
    requires PoolOk(bs, a, stop) && need >= HEADER
    ensures var (r, ptr) := Alloc(bs, need); Free(r, ptr) == bs
  {
    hide Tiled, FreeAt;
    var i := FirstFit(bs, need);
    var (r, ptr) := Alloc(bs, need);
    AllocOk(bs, a, stop, need);
    if i < |bs| {
      assert BlockOk(bs[i], i);
      if bs[i].lenth == bs[i].remain {
        UndoIdle(bs, a, stop, need);
      } else {
        UndoSplit(bs, a, stop, i, r, need);
      }
    }
  }

  // ------------------------------------------------- what a stale link costs

  /** The block at `i` is split, and the list becomes `r`. */
  lemma SplitsTo(bs: seq<Block>, need: nat, i: nat, r: seq<Block>)
    requires forall k :: 0 <= k < |bs| ==> bs[k].remain <= bs[k].lenth
    requires i < |bs| && need <= bs[i].remain < bs[i].lenth && forall j :: 0 <= j < i ==> bs[j].remain < need
    requires |r| == |bs| + 1 && r[i] == bs[i].(lenth := bs[i].lenth - bs[i].remain, remain := 0)
    requires r[i + 1] == Block(bs[i].addr + bs[i].lenth - bs[i].remain, bs[i].remain, bs[i].remain - need, bs[i].addr)
    requires forall k {:trigger r[k]} :: 0 <= k < i ==> r[k] == bs[k]
    requires forall k {:trigger r[k]} :: i + 1 < k < |r| ==> r[k] == bs[k - 1]
    ensures Alloc(bs, need) == (r, r[i + 1].addr + HEADER)
  {
    FirstFitIs(bs, need, i);
    assert Alloc(bs, need).0 == r;
  }

  /** The idle block at `i` is taken from, and the list becomes `r`. */
  lemma CutsTo(bs: seq<Block>, need: nat, i: nat, r: seq<Block>)
    requires forall k :: 0 <= k < |bs| ==> bs[k].remain <= bs[k].lenth
    requires i < |bs| && need <= bs[i].remain == bs[i].lenth && forall j :: 0 <= j < i ==> bs[j].remain < need
    requires |r| == |bs| && r[i] == bs[i].(remain := bs[i].remain - need)
    requires forall k {:trigger r[k]} :: 0 <= k < |bs| && k != i ==> r[k] == bs[k]
    ensures Alloc(bs, need) == (r, bs[i].addr + HEADER)
  {
    FirstFitIs(bs, need, i);
    assert Alloc(bs, need).0 == r;
  }

  /** The block at `i` is merged into the one at `j`, and the list becomes `r`. */
  lemma MergesTo(bs: seq<Block>, i: nat, j: nat, r: seq<Block>)
    requires j < i < |bs| && bs[i].prev == bs[j].addr != 0
    requires forall k :: 0 <= k < i ==> bs[k].addr != bs[i].addr
    requires forall k :: 0 <= k < j ==> bs[k].addr != bs[j].addr
    requires |r| == |bs| + j - i
    requires r[j] == bs[j].(lenth := bs[j].lenth + bs[i].lenth, remain := bs[j].remain + bs[i].lenth)
    requires forall k {:trigger r[k]} :: 0 <= k < j ==> r[k] == bs[k]
    requires forall k {:trigger r[k]} :: j < k < |r| ==> r[k] == bs[k + i - j]
    ensures Free(bs, bs[i].addr + HEADER) == r
  {
    hide Find;
    FindIs(bs, bs[i].addr + HEADER, i);
    FindIs(bs[..i], bs[j].addr + HEADER, j);
    var m := bs[j].(lenth := bs[j].lenth + bs[i].lenth, remain := bs[j].remain + bs[i].lenth);
    assert FreeAt(bs, i) == bs[..j] + [m] + bs[i + 1..];
    forall k | 0 <= k < |r| ensures r[k] == (bs[..j] + [m] + bs[i + 1..])[k] {
    }
  }

  const A0 := Block(4096, 40, 0, 0)
  const C0 := Block(4260, 860, 820, 4136)

  /** A fresh arena of 1024 bytes after requests of 16, 100 and 16 bytes. */
  lemma RunOpens()
    ensures Alloc([Block(4096, 1024, 1024, 0)], Need(16)) == ([Block(4096, 1024, 984, 0)], 4120)
    ensures Alloc([Block(4096, 1024, 984, 0)], Need(100)) == ([A0, Block(4136, 984, 860, 4096)], 4160)
    ensures Alloc([A0, Block(4136, 984, 860, 4096)], Need(16)) == ([A0, Block(4136, 124, 0, 4096), C0], 4284)
  {
    hide Alloc;
    var p1, p2 := [Block(4096, 1024, 984, 0)], [A0, Block(4136, 984, 860, 4096)];
    CutsTo([Block(4096, 1024, 1024, 0)], 40, 0, p1);
    SplitsTo(p1, 124, 0, p2);
    SplitsTo(p2, 40, 1, [A0, Block(4136, 124, 0, 4096), C0]);
  }

  /** The second block is freed, and two more requests of 16 bytes share its
      space; the third block's back link now skips one of them. */
  lemma RunReuses()
    ensures Free([A0, Block(4136, 124, 0, 4096), C0], 4160) == [Block(4096, 164, 124, 0), C0]
    ensures Alloc([Block(4096, 164, 124, 0), C0], Need(16)) == ([A0, Block(4136, 124, 84, 4096), C0], 4160)
    ensures Alloc([A0, Block(4136, 124, 84, 4096), C0], Need(16))
         == ([A0, Block(4136, 40, 0, 4096), Block(4176, 84, 44, 4136), C0], 4200)
  {
    hide Alloc, Free;
    var p4, p5 := [Block(4096, 164, 124, 0), C0], [A0, Block(4136, 124, 84, 4096), C0];
    MergesTo([A0, Block(4136, 124, 0, 4096), C0], 1, 0, p4);
    SplitsTo(p4, 40, 0, p5);
    SplitsTo(p5, 40, 1, [A0, Block(4136, 40, 0, 4096), Block(4176, 84, 44, 4136), C0]);
  }

  /** Freeing the third block through that link loses the skipped block, and
      the next request is given the address, 4200, that the previous request
      still holds. */
  lemma StaleLinkDoubleAllocates()
    ensures var p6 := [A0, Block(4136, 40, 0, 4096), Block(4176, 84, 44, 4136), C0];
      && Find(p6, 4284) == 3 && !BackLinkTrue(p6, 3)
      && Free(p6, 4284) == [A0, Block(4136, 900, 860, 4096)]
    ensures Alloc([A0, Block(4136, 900, 860, 4096)], Need(16)).1 == 4200
  {
    hide Alloc, Free;
    var p6 := [A0, Block(4136, 40, 0, 4096), Block(4176, 84, 44, 4136), C0];
    var p7 := [A0, Block(4136, 900, 860, 4096)];
    FindIs(p6, 4284, 3);
    MergesTo(p6, 3, 1, p7);
    SplitsTo(p7, 40, 1, [A0, Block(4136, 40, 0, 4096), Block(4176, 860, 820, 4136)]);
  }

  const C1 := Block(4176, 944, 904, 4136)

  /** The start of a run after which a back link names no listed block, but an
      address inside a listed header: three requests of 16 bytes. */
  lemma OverlapRunOpens()
    ensures Alloc([Block(4096, 1024, 1024, 0)], Need(16)) == ([Block(4096, 1024, 984, 0)], 4120)
    ensures Alloc([Block(4096, 1024, 984, 0)], Need(16)) == ([A0, Block(4136, 984, 944, 4096)], 4160)
    ensures Alloc([A0, Block(4136, 984, 944, 4096)], Need(16)) == ([A0, Block(4136, 40, 0, 4096), C1], 4200)
  {
    hide Alloc;
    var p1, p2 := [Block(4096, 1024, 984, 0)], [A0, Block(4136, 984, 944, 4096)];
    CutsTo([Block(4096, 1024, 1024, 0)], 40, 0, p1);
    SplitsTo(p1, 40, 0, p2);
    SplitsTo(p2, 40, 1, [A0, Block(4136, 40, 0, 4096), C1]);
  }

  /** The second and the first are freed. */
  lemma OverlapRunFrees()
    ensures Free([A0, Block(4136, 40, 0, 4096), C1], 4160) == [Block(4096, 80, 40, 0), C1]
    ensures Free([Block(4096, 80, 40, 0), C1], 4120) == [Block(4096, 80, 80, 0), C1]
  {
    var p4 := [Block(4096, 80, 40, 0), C1];
    FindIs(p4, 4120, 0);
    assert FreeAt(p4, 0) == [Block(4096, 80, 80, 0), C1];
    hide Free;
    MergesTo([A0, Block(4136, 40, 0, 4096), C1], 1, 0, p4);
  }

  /** Requests of 20 and 12 bytes take up their space; the third block's back
      link, 4136, is now four bytes below a header. */
  lemma OverlapRunReuses()
    ensures Alloc([Block(4096, 80, 80, 0), C1], Need(20)) == ([Block(4096, 80, 36, 0), C1], 4120)
    ensures Alloc([Block(4096, 80, 36, 0), C1], Need(12))
         == ([Block(4096, 44, 0, 0), Block(4140, 36, 0, 4096), C1], 4164)
  {
    hide Alloc;
    CutsTo([Block(4096, 80, 80, 0), C1], 44, 0, [Block(4096, 80, 36, 0), C1]);
    SplitsTo([Block(4096, 80, 36, 0), C1], 36, 0, [Block(4096, 44, 0, 0), Block(4140, 36, 0, 4096), C1]);
  }
}
