/**
 What the heap operations of HeapSpec guarantee: first fit against the free
 bytes, a free list that depends on the live blocks alone, the exact round trip, and the invariant over every run.
 */
module HeapLaws {
  import opened HeapSpec

  // --- First fit against free bytes ---------------------------------------

  /** A header and `size` bytes from `lo` on are in the region and in no live block. */
  ghost predicate RoomAt(r: Region, h: Heap, lo: int, size: nat)
  {
    && r.start <= lo && lo + HEADER + size <= r.end
    && forall a :: lo <= a < lo + HEADER + size ==> !Covered(h.live, a)
  }

  /** The byte after a free block is never free. */
  lemma AfterFreeBlock(h: Heap, i: nat, j: nat)
    requires Separated(h.free) && i < |h.free| && j < |h.free|
    ensures !Covers(h.free[j], End(h.free[i]))
  {
    if i < j { assert End(h.free[i]) < h.free[j].addr; }
    if j < i { assert End(h.free[j]) < h.free[i].addr; }
  }

  lemma UnusedByteIsFree(r: Region, h: Heap, a: int) returns (i: nat)
    requires Inv(r, h) && r.start <= a < r.end && !Covered(h.live, a)
    ensures i < |h.free| && Covers(h.free[i], a)
  {
    assert Covered(Blocks(h), a);
    var b :| b in Blocks(h) && Covers(b, a);
    assert b !in h.live;
    i :| 0 <= i < |h.free| && h.free[i] == b;
  }

  /** Coalescing is maximal: a run of unused bytes lies in a single free block. */
  lemma RoomIsInOneBlock(r: Region, h: Heap, lo: int, size: nat) returns (i: nat)
    requires Inv(r, h) && RoomAt(r, h, lo, size)
    ensures i < |h.free| && h.free[i].addr <= lo && lo + HEADER + size <= End(h.free[i])
  {
    i := UnusedByteIsFree(r, h, lo);
    var next := End(h.free[i]);
    forall j | 0 <= j < |h.free| ensures !Covers(h.free[j], next) { AfterFreeBlock(h, i, j); }
    assert Covered(Blocks(h), next) ==> Covered(h.live, next);
  }

  lemma FreeBlockIsRoom(r: Region, h: Heap, i: nat, size: nat)
    requires Inv(r, h) && i < |h.free| && size <= h.free[i].size
    ensures RoomAt(r, h, h.free[i].addr, size)
  {
    var b := h.free[i];
    assert b in Blocks(h);
    forall a, c | b.addr <= a < End(b) && c in h.live ensures !Covers(c, a) {
      assert c in Blocks(h) && Disjoint(b, c);
    }
  }

  /** Allocation fails exactly when no run of unused bytes in the whole region can hold a
      header and the rounded size, and otherwise takes the lowest such run. */
  lemma FirstFitIsOptimal(r: Region, h: Heap, request: nat)
    requires Inv(r, h)
    ensures CanAlloc(h, request) <==> exists lo :: RoomAt(r, h, lo, RoundUp(request))
    ensures CanAlloc(h, request) ==>
              var at := Alloc(1, h, request).block.addr;
              && RoomAt(r, h, at, RoundUp(request))
              && forall lo :: RoomAt(r, h, lo, RoundUp(request)) ==> at <= lo
  {
    var size := RoundUp(request);
    var k := FirstFit(h.free, size);
    if k < |h.free| {
      FreeBlockIsRoom(r, h, k, size);
    }
    forall lo | RoomAt(r, h, lo, size)
      ensures k < |h.free| && h.free[k].addr <= lo
    {
      var i := RoomIsInOneBlock(r, h, lo, size);
      assert k <= i;
      assert k < i ==> End(h.free[k]) < h.free[i].addr;
    }
  }

  // --- The free list is determined by the live blocks ----------------------

  lemma FreeBlockIsShared(r: Region, h: Heap, h': Heap, i: nat)
    requires Inv(r, h) && Inv(r, h') && h.live == h'.live && i < |h.free|
    ensures h.free[i] in h'.free
  {
    var b := h.free[i];
    FreeBlockIsRoom(r, h, i, b.size);
    assert RoomAt(r, h', b.addr, b.size);
    var j := RoomIsInOneBlock(r, h', b.addr, b.size);
    var c := h'.free[j];
    FreeBlockIsRoom(r, h', j, c.size);
    assert RoomAt(r, h, c.addr, c.size);
    var k := RoomIsInOneBlock(r, h, c.addr, c.size);
    assert h.free[i] == h.free[k];
  }

  /** Two separated lists with the same blocks start with the same one. */
  lemma SameFirst(f: seq<Block>, g: seq<Block>)
    requires Separated(f) && Separated(g) && f != [] && g != []
    requires forall b :: b in f <==> b in g
    ensures f[0] == g[0]
    ensures forall b :: b in f[1..] <==> b in f && b != f[0]
  {
    assert f[0] in g && g[0] in f;
    var i :| 0 <= i < |g| && g[i] == f[0];
    var j :| 0 <= j < |f| && f[j] == g[0];
    assert f == [f[0]] + f[1..];
    forall b | b in f[1..] ensures b != f[0] {
      var k :| 1 <= k < |f| && f[k] == b;
    }
  }

  lemma HasElement(f: seq<Block>)
    ensures f == [] || exists b :: b in f
  {
    if f != [] { assert f[0] in f; }
  }

  lemma {:induction false} SameElementsSameList(f: seq<Block>, g: seq<Block>)
    requires Separated(f) && Separated(g)
    requires forall b :: b in f <==> b in g
    ensures f == g
  {
    if f != [] && g != [] {
      SameFirst(f, g);
      SameFirst(g, f);
      SameElementsSameList(f[1..], g[1..]);
    } else {
      HasElement(f);
      HasElement(g);
    }
  }

  /** The heap has no history: whatever order blocks came and went in, the same live blocks
      leave the same free list. */
  lemma FreeListIsCanonical(r: Region, h: Heap, h': Heap)
    requires Inv(r, h) && Inv(r, h') && h.live == h'.live
    ensures h == h'
  {
    forall b | b in h.free ensures b in h'.free {
      var i :| 0 <= i < |h.free| && h.free[i] == b;
      FreeBlockIsShared(r, h, h', i);
    }
    forall b | b in h'.free ensures b in h.free {
      var i :| 0 <= i < |h'.free| && h'.free[i] == b;
      FreeBlockIsShared(r, h', h, i);
    }
    SameElementsSameList(h.free, h'.free);
  }

  /** Freeing a block straight after allocating it restores the heap exactly, addresses
      and sizes included, whether or not the block was split. */
  lemma AllocFreeRoundTrip(r: Region, h: Heap, request: nat)
    requires Inv(r, h) && request < WORD && CanAlloc(h, request)
    ensures var res := Alloc(1, h, request); Free(res.heap, res.block) == h
  {
    var res := Alloc(1, h, request);
    AllocInv(r, h, request);
    FreeInv(r, res.heap, res.block);
    assert Free(res.heap, res.block).live == h.live;
    FreeListIsCanonical(r, h, Free(res.heap, res.block));
  }

  /** The caller gets at least the bytes it asked for exactly when the rounding does not
      wrap, which it does for requests of 65533 bytes and more. */
  lemma AllocIsLargeEnough(r: Region, h: Heap, request: nat)
    requires Inv(r, h) && request < WORD && CanAlloc(h, request)
    ensures Alloc(1, h, request).block.size >= request <==> request + 3 < WORD
  {
    AllocInv(r, h, request);
    RoundUpFacts(request);
  }

  /** A request of 65535 bytes in a region of 64: it rounds to 0 and is given an empty block. */
  lemma HugeRequestCounterexample()
    ensures var r := Region(0x1000, 0x1040);
            && GoodRegion(r) && CanAlloc(Init(r), 65535)
            && Alloc(1, Init(r), 65535).block == Block(0x1000, 0)
  {
    assert RoundUp(65535) == 0;
  }

  // --- Runs ---------------------------------------------------------------

  datatype Op = DoAlloc(request: nat) | DoFree(block: Block)

  /** Requests are 16-bit sizes, and only live blocks are freed. */
  predicate LegalOp(h: Heap, op: Op)
  {
    match op
    case DoAlloc(request) => request < WORD
    case DoFree(b) => b in h.live
  }

  /** A failed allocation changes nothing. */
  function Apply(h: Heap, op: Op): Heap
  {
    match op
    case DoAlloc(request) => if CanAlloc(h, request) then Alloc(1, h, request).heap else h
    case DoFree(b) => Free(h, b)
  }

  ghost predicate IsRun(hs: seq<Heap>, ops: seq<Op>)
  {
    && |hs| == |ops| + 1
    && forall i :: 0 <= i < |ops| ==> LegalOp(hs[i], ops[i]) && hs[i + 1] == Apply(hs[i], ops[i])
  }

  lemma ApplyInv(r: Region, h: Heap, op: Op)
    requires Inv(r, h) && LegalOp(h, op)
    ensures Inv(r, Apply(h, op))
  {
    match op
    case DoAlloc(request) => if CanAlloc(h, request) { AllocInv(r, h, request); }
    case DoFree(b) => FreeInv(r, h, b);
  }

  /** After any sequence of allocations and frees of live blocks the heap is tiled, the free
      list strictly ordered and fully coalesced, and all sizes are multiples of 4. */
  lemma {:induction false} EveryRunKeepsInv(r: Region, hs: seq<Heap>, ops: seq<Op>, n: nat)
    requires GoodRegion(r) && IsRun(hs, ops) && hs[0] == Init(r) && n < |hs|
    ensures Inv(r, hs[n])
  {
    if n == 0 {
      InitInv(r);
    } else {
      EveryRunKeepsInv(r, hs, ops, n - 1);
      assert hs[n - 1 + 1] == Apply(hs[n - 1], ops[n - 1]);
      ApplyInv(r, hs[n - 1], ops[n - 1]);
    }
  }

  // --- The text of the C program ------------------------------------------

  /** With the offset as the C text computes it, an allocation leaves the region tiled
      exactly when it does not split the block or splits off nothing. */
  lemma LiteralOffsetTilesIff(r: Region, h: Heap, request: nat)
    requires Inv(r, h) && request < WORD && CanAlloc(h, request)
    ensures Tiled(r, Alloc(HEADER, h, request).heap) <==>
              var size := RoundUp(request);
              size == 0 || !Splits(h.free[FirstFit(h.free, size)].size, size)
    ensures Tiled(r, Alloc(HEADER, h, request).heap) ==> Alloc(HEADER, h, request) == Alloc(1, h, request)
  {
    var size := RoundUp(request);
    var i := FirstFit(h.free, size);
    var b := h.free[i];
    var res := Alloc(HEADER, h, request);
    RoundUpFacts(request);
    SplitFacts(r, h, i, size);
    if size == 0 || !Splits(b.size, size) {
      assert res == Alloc(1, h, request);
      AllocInv(r, h, request);
    } else {
      LiteralRestIsElsewhere(r, h, i, size);
      LiteralRestBreaks(r, h, i, size);
    }
  }

  /** In 16 bits the literal address is never the intended one. */
  lemma LiteralRestIsElsewhere(r: Region, h: Heap, i: nat, size: nat)
    requires Inv(r, h) && i < |h.free| && 0 < size <= h.free[i].size
    ensures Rest(HEADER, h.free[i], size).addr != h.free[i].addr + HEADER + size
  {
    FreeIsInside(r, h, i);
    var a := h.free[i].addr + HEADER + size;
    var k := (a + 3 * size) / WORD;
    assert Rest(HEADER, h.free[i], size).addr == a + 3 * size - k * WORD;
  }

  /** A remainder anywhere else either leaves the byte behind the allocated block in no block,
      or has the byte in front of it in common with the allocated block. */
  lemma LiteralRestBreaks(r: Region, h: Heap, i: nat, size: nat)
    requires Inv(r, h) && i < |h.free| && size <= h.free[i].size && Splits(h.free[i].size, size) && size % 4 == 0
    requires Rest(HEADER, h.free[i], size).addr != h.free[i].addr + HEADER + size
    ensures !Tiled(r, AllocAt(HEADER, h, i, size).heap)
  {
    hide Rest;
    hide Separated;
    var b := h.free[i];
    var res := AllocAt(HEADER, h, i, size);
    var rest := Rest(HEADER, b, size);
    var a := End(res.block);
    SplitFacts(r, h, i, size);
    FreeIsInside(r, h, i);
    assert rest == res.heap.free[i] && rest in Blocks(res.heap) && res.block in Blocks(res.heap);
    if Covers(rest, a) {
      assert Covers(rest, a - 1) && Covers(res.block, a - 1) && rest != res.block;
    } else {
      NothingElseThere(r, h, i, size);
      assert Inside(r, b) && Covers(b, a);
      assert !Covered(Blocks(res.heap), a);
    }
  }

  lemma NothingElseThere(r: Region, h: Heap, i: nat, size: nat)
    requires Inv(r, h) && i < |h.free| && size < h.free[i].size && Splits(h.free[i].size, size)
    ensures var res := AllocAt(HEADER, h, i, size);
            forall c :: c in Blocks(res.heap) && c != res.block && c != Rest(HEADER, h.free[i], size) ==>
              !Covers(c, End(res.block))
  {
    var b := h.free[i];
    var res := AllocAt(HEADER, h, i, size);
    SeparatedIsDistinct(h.free);
    assert b in Blocks(h) && Covers(b, End(res.block));
    forall c | c in Blocks(res.heap) && c != res.block && c != Rest(HEADER, b, size)
      ensures !Covers(c, End(res.block))
    {
      OtherBlocksRemain(h, i, size, c);
      assert Disjoint(b, c);
    }
  }

  lemma OtherBlocksRemain(h: Heap, i: nat, size: nat, c: Block)
    requires i < |h.free| && Splits(h.free[i].size, size)
    requires forall j, k :: 0 <= j < k < |h.free| ==> h.free[j] != h.free[k]
    requires forall j :: 0 <= j < |h.free| ==> h.free[j] !in h.live
    requires c in Blocks(AllocAt(HEADER, h, i, size).heap)
    requires c != AllocAt(HEADER, h, i, size).block && c != Rest(HEADER, h.free[i], size)
    ensures c in Blocks(h) && c != h.free[i]
  {
    var f := AllocAt(HEADER, h, i, size).heap.free;
    if c in f {
      var k :| 0 <= k < |f| && f[k] == c;
      assert c == h.free[k];
    }
  }

  /** A concrete case: 64 bytes of user space, one request for 8 bytes. */
  lemma LiteralOffsetCounterexample()
    ensures var r := Region(0x1000, 0x1040);
            && GoodRegion(r) && CanAlloc(Init(r), 8)
            && !Tiled(r, Alloc(HEADER, Init(r), 8).heap)
            && Alloc(HEADER, Init(r), 8).heap.free == [Block(0x1024, 48)]
            && Alloc(1, Init(r), 8).heap.free == [Block(0x100C, 48)]
  {
    hide Inv;
    hide Tiled;
    var r := Region(0x1000, 0x1040);
    InitInv(r);
    assert RoundUp(8) == 8 && Init(r).free == [Block(0x1000, 60)] && Splits(60, 8);
    LiteralOffsetTilesIff(r, Init(r), 8);
  }

  /** Cutting off all but one to three bytes makes the size of the rest wrap. */
  lemma SmallRest(b: Block)
    requires End(b) < WORD && b.size % 4 != 0
    ensures Splits(b.size, b.size - b.size % 4)
    ensures Rest(1, b, b.size - b.size % 4).size >= WORD - HEADER
  {
    SplitGuard(b.size, b.size - b.size % 4);
    var m := b.size % 4;
    assert (m - HEADER) % WORD == WORD + m - HEADER;
  }

  /** The region's size has to be a multiple of 4: in any other region with room for a header one
      request makes the size of the rest wrap around. */
  lemma UnalignedRegionBreaks(r: Region) returns (request: nat)
    requires r.start + HEADER <= r.end < WORD && (r.end - r.start) % 4 != 0
    ensures request < WORD && CanAlloc(Init(r), request)
    ensures !Tiled(r, Alloc(1, Init(r), request).heap)
  {
    var payload := r.end - r.start - HEADER;
    request := payload - payload % 4;
    SmallRest(Block(r.start, payload));
    assert RoundUp(request) == request;
    hide RoundUp;
    hide Splits;
    hide Rest;
    assert Init(r).free == [Block(r.start, payload)] && FirstFit(Init(r).free, request) == 0;
    var h := Alloc(1, Init(r), request).heap;
    assert h.free[0] == Rest(1, Block(r.start, payload), request);
    assert h.free[0] in Blocks(h) && !Inside(r, h.free[0]);
  }
}
