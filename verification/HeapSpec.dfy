/**
 The user-space heap of os/kmalloc.c, as operations on the list of free blocks.

 A block is a 4-byte header (link and size, two bytes each on the 6502) followed
 by its payload.  The functions here are what the pointer program in UserHeap is
 proved to compute; the lemmas say what every sequence of such operations keeps.
 */
module HeapSpec {

  const HEADER := 4
  const WORD := 0x1_0000
  const MIN_BLOCK := 32

  /** Header address and payload size of a block. */
  datatype Block = Block(addr: nat, size: nat)

  function End(b: Block): nat { b.addr + HEADER + b.size }

  predicate Covers(b: Block, a: int) { b.addr <= a < End(b) }

  predicate Disjoint(b: Block, c: Block) { End(b) <= c.addr || End(c) <= b.addr }

  /** Free list in list order, and the blocks handed out and not yet freed. */
  datatype Heap = Heap(free: seq<Block>, live: set<Block>)

  /** The bytes that the linker script gives to user space. */
  datatype Region = Region(start: nat, end: nat)

  // --- The operations -----------------------------------------------------

  /** Rounding to a multiple of 4 in 16-bit arithmetic: wraps to 0 at the top. */
  function RoundUp(size: nat): nat { (size + 3) % WORD / 4 * 4 }

  /** The guard of the split: an unsigned 16-bit difference, taken the wrong way round. */
  predicate Splits(blockSize: nat, size: nat) { (size - blockSize) % WORD >= MIN_BLOCK }

  /** Index of the first block of at least `size` bytes; the list's length if there is none. */
  function FirstFit(free: seq<Block>, size: nat): (k: nat)
    ensures k <= |free|
    ensures k < |free| ==> free[k].size >= size
    ensures forall i :: 0 <= i < k ==> free[i].size < size
  {
    if free == [] then 0
    else if free[0].size >= size then 0
    else
      var k := FirstFit(free[1..], size);
      assert forall i :: 1 <= i < 1 + k ==> free[i] == free[1..][i - 1];
      1 + k
  }

  /** What is left of block `b` after the first `size` payload bytes are split off.
      `stride` is the byte width of one step of the pointer that `size` is added to:
      1 is the evident intent (a `char *`), HEADER is what the C text says, since the
      cast there binds tighter than the addition. */
  function Rest(stride: nat, b: Block, size: nat): Block
  {
    Block((b.addr + HEADER + stride * size) % WORD, (b.size - size - HEADER) % WORD)
  }

  datatype AllocResult = AllocResult(heap: Heap, block: Block)

  /** Takes block `i` off the free list, splitting it first if the guard says so. */
  function AllocAt(stride: nat, h: Heap, i: nat, size: nat): AllocResult
    requires i < |h.free|
  {
    var b := h.free[i];
    if Splits(b.size, size) then
      var taken := Block(b.addr, size);
      AllocResult(Heap(h.free[i := Rest(stride, b, size)], h.live + {taken}), taken)
    else
      AllocResult(Heap(h.free[..i] + h.free[i + 1..], h.live + {b}), b)
  }

  predicate CanAlloc(h: Heap, request: nat) { FirstFit(h.free, RoundUp(request)) < |h.free| }

  function Alloc(stride: nat, h: Heap, request: nat): AllocResult
    requires CanAlloc(h, request)
  {
    AllocAt(stride, h, FirstFit(h.free, RoundUp(request)), RoundUp(request))
  }

  /** Number of free blocks in front of the first one above `addr`. */
  function Position(free: seq<Block>, addr: nat): (k: nat)
    ensures k <= |free|
    ensures k < |free| ==> free[k].addr > addr
    ensures forall i :: 0 <= i < k ==> free[i].addr <= addr
  {
    if free == [] then 0
    else if free[0].addr > addr then 0
    else
      var k := Position(free[1..], addr);
      assert forall i :: 1 <= i < 1 + k ==> free[i] == free[1..][i - 1];
      1 + k
  }

  /** Two adjacent blocks as one; the size is updated in two 16-bit additions. */
  function Joined(b: Block, c: Block): Block { Block(b.addr, ((b.size + HEADER) % WORD + c.size) % WORD) }

  function InsertAt(free: seq<Block>, k: nat, b: Block): seq<Block>
    requires k <= |free|
  {
    var joinsNext := k < |free| && End(b) == free[k].addr;
    var b' := if joinsNext then Joined(b, free[k]) else b;
    var tail := if joinsNext then free[k + 1..] else free[k..];
    if k > 0 && End(free[k - 1]) == b.addr
    then free[..k - 1] + [Joined(free[k - 1], b')] + tail
    else free[..k] + [b'] + tail
  }

  function Free(h: Heap, b: Block): Heap
  {
    Heap(InsertAt(h.free, Position(h.free, b.addr), b), h.live - {b})
  }

  /** All of user space as one free block. */
  function Init(r: Region): Heap
    requires r.start + HEADER <= r.end
  {
    Heap([Block(r.start, r.end - r.start - HEADER)], {})
  }

  // --- The invariant ------------------------------------------------------

  predicate GoodRegion(r: Region)
  {
    0 < r.start && r.start + HEADER <= r.end < WORD && (r.end - r.start) % 4 == 0
  }

  predicate Inside(r: Region, b: Block) { r.start <= b.addr && End(b) <= r.end }

  /** Every block of the heap, free or live. */
  function Blocks(h: Heap): set<Block> { (set b | b in h.free) + h.live }

  predicate Covered(blocks: set<Block>, a: int) { exists b :: b in blocks && Covers(b, a) }

  predicate PairwiseDisjoint(blocks: set<Block>)
  {
    forall b, c :: b in blocks && c in blocks && b != c ==> Disjoint(b, c)
  }

  /** The blocks lie inside the region, no byte is in two of them and every byte is in one. */
  ghost predicate Tiles(r: Region, blocks: set<Block>)
  {
    && (forall b :: b in blocks ==> Inside(r, b))
    && PairwiseDisjoint(blocks)
    && (forall a :: r.start <= a < r.end ==> Covered(blocks, a))
  }

  /** Free and live blocks together tile the region, and no block is listed twice. */
  ghost predicate Tiled(r: Region, h: Heap)
  {
    && Tiles(r, Blocks(h))
    && (forall i, j :: 0 <= i < j < |h.free| ==> h.free[i] != h.free[j])
    && (forall i :: 0 <= i < |h.free| ==> h.free[i] !in h.live)
  }

  /** Strictly address-ordered, disjoint, and with no two free blocks touching. */
  predicate Separated(free: seq<Block>)
  {
    forall i, j :: 0 <= i < j < |free| ==> End(free[i]) < free[j].addr
  }

  predicate Aligned(h: Heap) { forall b :: b in Blocks(h) ==> b.size % 4 == 0 }

  /** Address-ordered, but neighbours may touch: the state in the middle of a free. */
  predicate Ordered(free: seq<Block>)
  {
    forall i, j :: 0 <= i < j < |free| ==> End(free[i]) <= free[j].addr
  }

  ghost predicate MidInv(r: Region, h: Heap)
  {
    GoodRegion(r) && Tiled(r, h) && Ordered(h.free) && Aligned(h)
  }

  /** What every reachable heap satisfies. */
  ghost predicate Inv(r: Region, h: Heap)
  {
    GoodRegion(r) && Tiled(r, h) && Separated(h.free) && Aligned(h)
  }

  lemma InitInv(r: Region)
    requires GoodRegion(r)
    ensures Inv(r, Init(r))
  {
    var b := Init(r).free[0];
    assert Blocks(Init(r)) == {b};
    assert forall a :: r.start <= a < r.end ==> Covers(b, a);
  }

  /** Exchanging some tiles for others over the same bytes keeps a tiling. */
  lemma ExchangeTiles(r: Region, blocks: set<Block>, out: set<Block>, into: set<Block>)
    requires Tiles(r, blocks) && out <= blocks
    requires PairwiseDisjoint(into) && forall b :: b in into ==> Inside(r, b)
    requires forall a: int :: Covered(out, a) <==> Covered(into, a)
    ensures Tiles(r, blocks - out + into)
  {
    var after := blocks - out + into;
    forall b, c | b in into && c in blocks - out ensures Disjoint(b, c) {
      var a := if b.addr <= c.addr then c.addr else b.addr;
      if Covers(b, a) {
        assert Covered(into, a);
        var o :| o in out && Covers(o, a);
        assert Disjoint(o, c);
      }
    }
    forall a | r.start <= a < r.end ensures Covered(after, a) {
      if Covered(into, a) {
        var b :| b in into && Covers(b, a);
        assert b in after;
      } else {
        assert !Covered(out, a) && Covered(blocks, a);
        var b :| b in blocks && Covers(b, a);
        assert b in after;
      }
    }
  }

  // --- Allocation ---------------------------------------------------------

  lemma RoundUpFacts(request: nat)
    requires request < WORD
    ensures RoundUp(request) % 4 == 0
    ensures RoundUp(request) >= request <==> request + 3 < WORD
    ensures request + 3 < WORD ==> RoundUp(request) < request + 4
  {
  }

  /** With sizes that are multiples of 4 the odd guard splits on every non-zero remainder
      up to 65504 bytes, and then the subtraction cannot wrap. */
  lemma SplitFacts(r: Region, h: Heap, i: nat, size: nat)
    requires Inv(r, h) && i < |h.free| && size % 4 == 0 && size <= h.free[i].size
    ensures Splits(h.free[i].size, size) <==> 0 < h.free[i].size - size <= WORD - MIN_BLOCK
    ensures Splits(h.free[i].size, size) ==>
              && Rest(1, h.free[i], size).addr == h.free[i].addr + HEADER + size
              && Rest(1, h.free[i], size).size == h.free[i].size - size - HEADER
              && Rest(1, h.free[i], size).size % 4 == 0
              && End(Rest(1, h.free[i], size)) == End(h.free[i])
  {
    hide Rest;
    hide Splits;
    FreeInWord(r, h, i);
    SplitGuard(h.free[i].size, size);
    if size < h.free[i].size {
      RestIs(h.free[i], size);
    }
  }

  lemma FreeInWord(r: Region, h: Heap, i: nat)
    requires Inv(r, h) && i < |h.free|
    ensures End(h.free[i]) < WORD && h.free[i].size % 4 == 0
  {
    assert h.free[i] in Blocks(h);
    assert Inside(r, h.free[i]);
  }

  lemma SplitGuard(have: nat, size: nat)
    requires size <= have < WORD
    ensures Splits(have, size) <==> 0 < have - size <= WORD - MIN_BLOCK
  {
    var x := have - size;
    assert x > 0 ==> (size - have) % WORD == WORD - x;
  }

  lemma RestIs(b: Block, size: nat)
    requires End(b) < WORD && size < b.size && size % 4 == 0 && b.size % 4 == 0
    ensures Rest(1, b, size) == Block(b.addr + HEADER + size, b.size - size - HEADER)
    ensures (b.size - size - HEADER) % 4 == 0
  {
  }

  lemma WithoutSeparated(free: seq<Block>, i: nat)
    requires Separated(free) && i < |free|
    ensures Separated(free[..i] + free[i + 1..])
  {
    var f := free[..i] + free[i + 1..];
    assert forall k :: 0 <= k < |f| ==> f[k] == free[if k < i then k else k + 1];
  }

  lemma WithoutBlocks(h: Heap, i: nat)
    requires i < |h.free|
    ensures Blocks(Heap(h.free[..i] + h.free[i + 1..], h.live + {h.free[i]})) == Blocks(h)
  {
    assert h.free == h.free[..i] + [h.free[i]] + h.free[i + 1..];
  }

  lemma SeparatedIsDistinct(free: seq<Block>)
    requires Separated(free)
    ensures forall i, j :: 0 <= i < j < |free| ==> free[i] != free[j]
  {
  }

  /** Taking a free block off the list without splitting it. */
  lemma TakeWhole(r: Region, h: Heap, i: nat)
    requires Inv(r, h) && i < |h.free|
    ensures Inv(r, Heap(h.free[..i] + h.free[i + 1..], h.live + {h.free[i]}))
  {
    hide Tiles;
    hide Blocks;
    hide Separated;
    var f := h.free[..i] + h.free[i + 1..];
    WithoutBlocks(h, i);
    WithoutSeparated(h.free, i);
    SeparatedIsDistinct(f);
    forall k | 0 <= k < |f| ensures f[k] !in h.live + {h.free[i]} {
      assert f[k] == h.free[if k < i then k else k + 1];
    }
  }

  lemma FreeIsInside(r: Region, h: Heap, i: nat)
    requires Inv(r, h) && i < |h.free|
    ensures Inside(r, h.free[i]) && h.free[i] in Blocks(h) && h.free[i].size % 4 == 0
  {
    assert h.free[i] in Blocks(h);
  }

  /** No live block overlaps a free one. */
  lemma FreeLiveDisjoint(r: Region, h: Heap, i: nat, c: Block)
    requires MidInv(r, h) && i < |h.free| && c in h.live
    ensures Disjoint(h.free[i], c)
  {
    assert h.free[i] in Blocks(h) && c in Blocks(h);
  }

  lemma OverlapsIsNotLive(r: Region, h: Heap, i: nat, c: Block)
    requires MidInv(r, h) && i < |h.free| && !Disjoint(h.free[i], c)
    ensures c !in h.live
  {
    if c in h.live { FreeLiveDisjoint(r, h, i, c); }
  }

  lemma InvIsMidInv(r: Region, h: Heap)
    requires Inv(r, h)
    ensures MidInv(r, h)
  {
    hide Tiled;
    hide Aligned;
  }

  lemma CutSeparated(free: seq<Block>, i: nat, back: Block)
    requires Separated(free) && i < |free| && free[i].addr <= back.addr && End(back) == End(free[i])
    ensures Separated(free[i := back])
  {
  }

  /** Cutting a free block in two: the front goes out, the back stays free. */
  lemma TakeFront(r: Region, h: Heap, i: nat, front: Block, back: Block)
    requires Inv(r, h) && i < |h.free|
    requires front.addr == h.free[i].addr && End(front) == back.addr && End(back) == End(h.free[i])
    requires front.size % 4 == 0 && back.size % 4 == 0
    ensures Inv(r, Heap(h.free[i := back], h.live + {front}))
  {
    hide Tiles;
    hide Separated;
    hide Blocks;
    var b := h.free[i];
    var h' := Heap(h.free[i := back], h.live + {front});
    FreeIsInside(r, h, i);
    CutBlocks(h, i, front, back);
    CutBytes(b, front, back);
    ExchangeTiles(r, Blocks(h), {b}, {front, back});
    CutSeparated(h.free, i, back);
    SeparatedIsDistinct(h'.free);
    SeparatedIsDistinct(h.free);
    forall k | 0 <= k < |h'.free| ensures h'.free[k] !in h'.live {
      if k == i {
        InvIsMidInv(r, h);
        OverlapsIsNotLive(r, h, i, back);
      } else {
        CutIsNotFront(h.free, i, k, front);
      }
    }
  }

  lemma CutIsNotFront(free: seq<Block>, i: nat, k: nat, front: Block)
    requires Separated(free) && i < |free| && k < |free| && k != i && front.addr == free[i].addr
    ensures free[k] != front
  {
  }

  lemma CutBytes(b: Block, front: Block, back: Block)
    requires front.addr == b.addr && End(front) == back.addr && End(back) == End(b)
    ensures forall a: int :: Covered({b}, a) <==> Covered({front, back}, a)
  {
    forall a: int ensures Covered({b}, a) <==> Covered({front, back}, a) {
      assert Covers(b, a) <==> Covers(front, a) || Covers(back, a);
      assert front in {front, back} && back in {front, back};
    }
  }

  lemma CutBlocks(h: Heap, i: nat, front: Block, back: Block)
    requires i < |h.free|
    requires forall i, j :: 0 <= i < j < |h.free| ==> h.free[i] != h.free[j]
    requires forall i :: 0 <= i < |h.free| ==> h.free[i] !in h.live
    ensures Blocks(Heap(h.free[i := back], h.live + {front})) == Blocks(h) - {h.free[i]} + {front, back}
  {
    var f := h.free[i := back];
    assert f[i] == back;
    forall k | 0 <= k < |h.free| && k != i ensures h.free[k] in f && h.free[k] != h.free[i] {
      assert f[k] == h.free[k];
    }
    forall c | c in f && c != back ensures c in h.free {
      var k :| 0 <= k < |f| && f[k] == c;
      assert h.free[k] == c;
    }
  }

  /** Allocation keeps the invariant; the block it returns is new, inside the region and
      holds the rounded request. */
  lemma AllocInv(r: Region, h: Heap, request: nat)
    requires Inv(r, h) && request < WORD && CanAlloc(h, request)
    ensures var res := Alloc(1, h, request);
            && Inv(r, res.heap)
            && res.block !in h.live
            && res.heap.live == h.live + {res.block}
            && Inside(r, res.block)
            && res.block.size >= RoundUp(request)
  {
    hide Inv;
    hide RoundUp;
    hide Splits;
    hide Rest;
    var size := RoundUp(request);
    var i := FirstFit(h.free, size);
    var b := h.free[i];
    RoundUpFacts(request);
    SplitFacts(r, h, i, size);
    FreeIsInside(r, h, i);
    InvIsMidInv(r, h);
    OverlapsIsNotLive(r, h, i, b);
    if Splits(b.size, size) {
      TakeFront(r, h, i, Block(b.addr, size), Rest(1, b, size));
      OverlapsIsNotLive(r, h, i, Block(b.addr, size));
    } else {
      TakeWhole(r, h, i);
    }
  }

  // --- Freeing ------------------------------------------------------------

  /** A live block lies strictly between its neighbours in the free list. */
  lemma NeighboursOf(r: Region, h: Heap, b: Block)
    requires Inv(r, h) && b in h.live
    ensures var k := Position(h.free, b.addr);
            && (forall i :: 0 <= i < k ==> End(h.free[i]) <= b.addr)
            && (forall i :: k <= i < |h.free| ==> End(b) <= h.free[i].addr)
  {
    hide Inv;
    InvIsMidInv(r, h);
    var k := Position(h.free, b.addr);
    forall i | 0 <= i < k ensures End(h.free[i]) <= b.addr {
      FreeLiveDisjoint(r, h, i, b);
    }
    forall i | k <= i < |h.free| ensures End(b) <= h.free[i].addr {
      FreeLiveDisjoint(r, h, i, b);
      FreeListAscends(r, h, k, i);
    }
  }

  lemma FreeListAscends(r: Region, h: Heap, i: nat, j: nat)
    requires Inv(r, h) && i <= j < |h.free|
    ensures h.free[i].addr <= h.free[j].addr
  {
    hide Tiled;
    hide Aligned;
  }

  function Insert(free: seq<Block>, k: nat, b: Block): seq<Block>
    requires k <= |free|
  {
    free[..k] + [b] + free[k..]
  }

  lemma InsertOrdered(free: seq<Block>, k: nat, b: Block)
    requires Separated(free) && k <= |free|
    requires forall i :: 0 <= i < k ==> End(free[i]) <= b.addr
    requires forall i :: k <= i < |free| ==> End(b) <= free[i].addr
    ensures Ordered(Insert(free, k, b))
  {
    var f := Insert(free, k, b);
    assert forall i :: 0 <= i < |f| ==> f[i] == if i < k then free[i] else if i == k then b else free[i - 1];
  }

  lemma InsertBlocks(h: Heap, k: nat, b: Block)
    requires k <= |h.free| && b in h.live
    ensures Blocks(Heap(Insert(h.free, k, b), h.live - {b})) == Blocks(h)
  {
    var f := Insert(h.free, k, b);
    assert h.free == h.free[..k] + h.free[k..];
    assert forall c :: c in f <==> c in h.free || c == b;
  }

  lemma OrderedIsDistinct(free: seq<Block>)
    requires Ordered(free)
    ensures forall i, j :: 0 <= i < j < |free| ==> free[i] != free[j]
  {
  }

  /** Putting the block back in order, before any merging. */
  lemma InsertMidInv(r: Region, h: Heap, b: Block)
    requires Inv(r, h) && b in h.live
    ensures MidInv(r, Heap(Insert(h.free, Position(h.free, b.addr), b), h.live - {b}))
  {
    hide Tiles;
    hide Blocks;
    var k := Position(h.free, b.addr);
    var f := Insert(h.free, k, b);
    NeighboursOf(r, h, b);
    InsertOrdered(h.free, k, b);
    InsertBlocks(h, k, b);
    OrderedIsDistinct(f);
    InsertNotLive(h, k, b);
    hide Insert;
    hide Ordered;
    hide Separated;
  }

  lemma InsertNotLive(h: Heap, k: nat, b: Block)
    requires k <= |h.free| && forall i :: 0 <= i < |h.free| ==> h.free[i] !in h.live
    ensures forall i :: 0 <= i < |Insert(h.free, k, b)| ==> Insert(h.free, k, b)[i] !in h.live - {b}
  {
    var f := Insert(h.free, k, b);
    forall i | 0 <= i < |f| ensures f[i] !in h.live - {b} {
      assert f[i] == if i < k then h.free[i] else if i == k then b else h.free[i - 1];
    }
  }

  function JoinAt(free: seq<Block>, k: nat): seq<Block>
    requires k + 1 < |free|
  {
    free[..k] + [Joined(free[k], free[k + 1])] + free[k + 2..]
  }

  /** The two 16-bit additions do not wrap: the joined block spans both. */
  lemma JoinedSpans(r: Region, b: Block, c: Block)
    requires GoodRegion(r) && Inside(r, b) && Inside(r, c) && End(b) == c.addr
    ensures Joined(b, c).addr == b.addr && End(Joined(b, c)) == End(c) && Inside(r, Joined(b, c))
    ensures b.size % 4 == 0 && c.size % 4 == 0 ==> Joined(b, c).size % 4 == 0
    ensures forall a: int :: Covered({b, c}, a) <==> Covered({Joined(b, c)}, a)
  {
    JoinedIs(r, b, c);
    hide Joined;
    var j := Joined(b, c);
    forall a: int ensures Covered({b, c}, a) <==> Covered({j}, a) {
      assert Covers(j, a) <==> Covers(b, a) || Covers(c, a);
      assert b in {b, c} && c in {b, c} && j in {j};
    }
  }

  /** The 16-bit sum of the sizes does not wrap. */
  lemma JoinedIs(r: Region, b: Block, c: Block)
    requires GoodRegion(r) && Inside(r, b) && Inside(r, c) && End(b) == c.addr
    ensures Joined(b, c) == Block(b.addr, b.size + HEADER + c.size)
    ensures b.size % 4 == 0 && c.size % 4 == 0 ==> (b.size + HEADER + c.size) % 4 == 0
  {
  }

  lemma JoinBlocks(h: Heap, k: nat)
    requires k + 1 < |h.free|
    requires forall i, j :: 0 <= i < j < |h.free| ==> h.free[i] != h.free[j]
    requires forall i :: 0 <= i < |h.free| ==> h.free[i] !in h.live
    ensures Blocks(Heap(JoinAt(h.free, k), h.live)) ==
            Blocks(h) - {h.free[k], h.free[k + 1]} + {Joined(h.free[k], h.free[k + 1])}
  {
    hide JoinAt;
    hide Joined;
    forall c ensures c in JoinAt(h.free, k) <==>
                     c == Joined(h.free[k], h.free[k + 1]) || (c in h.free && c != h.free[k] && c != h.free[k + 1])
    {
      JoinMembers(h.free, k, c);
    }
  }

  lemma JoinMembers(free: seq<Block>, k: nat, c: Block)
    requires k + 1 < |free|
    requires forall i, j :: 0 <= i < j < |free| ==> free[i] != free[j]
    ensures c in JoinAt(free, k) <==>
            c == Joined(free[k], free[k + 1]) || (c in free && c != free[k] && c != free[k + 1])
  {
    hide Joined;
    var f := JoinAt(free, k);
    assert f[k] == Joined(free[k], free[k + 1]);
    if c in free && c != free[k] && c != free[k + 1] {
      var i :| 0 <= i < |free| && free[i] == c;
      assert f[if i < k then i else i - 1] == c;
    }
    if c in f && c != f[k] {
      var i :| 0 <= i < |f| && f[i] == c;
      assert c == free[if i < k then i else i + 1];
    }
  }

  lemma JoinTiles(r: Region, h: Heap, k: nat)
    requires MidInv(r, h) && k + 1 < |h.free| && End(h.free[k]) == h.free[k + 1].addr
    ensures var h' := Heap(JoinAt(h.free, k), h.live); Tiles(r, Blocks(h')) && Aligned(h')
  {
    hide Tiles;
    hide Ordered;
    hide Blocks;
    var b, c := h.free[k], h.free[k + 1];
    MidIsInside(r, h, k);
    MidIsInside(r, h, k + 1);
    JoinedSpans(r, b, c);
    JoinBlocks(h, k);
    ExchangeTiles(r, Blocks(h), {b, c}, {Joined(b, c)});
  }

  lemma MidIsInside(r: Region, h: Heap, i: nat)
    requires MidInv(r, h) && i < |h.free|
    ensures Inside(r, h.free[i]) && h.free[i] in Blocks(h) && h.free[i].size % 4 == 0
  {
    assert h.free[i] in Blocks(h);
  }

  lemma JoinMidInv(r: Region, h: Heap, k: nat)
    requires MidInv(r, h) && k + 1 < |h.free| && End(h.free[k]) == h.free[k + 1].addr
    ensures MidInv(r, Heap(JoinAt(h.free, k), h.live))
    ensures Joined(h.free[k], h.free[k + 1]).addr == h.free[k].addr
    ensures End(Joined(h.free[k], h.free[k + 1])) == End(h.free[k + 1])
  {
    hide Tiles;
    hide Ordered;
    hide Blocks;
    hide Aligned;
    var b, c := h.free[k], h.free[k + 1];
    var f := JoinAt(h.free, k);
    MidIsInside(r, h, k);
    MidIsInside(r, h, k + 1);
    JoinedSpans(r, b, c);
    JoinTiles(r, h, k);
    JoinOrdered(h.free, k);
    OverlapsIsNotLive(r, h, k, Joined(b, c));
    forall i | 0 <= i < |f| ensures f[i] !in h.live {
      assert f[i] == if i < k then h.free[i] else if i == k then Joined(b, c) else h.free[i + 1];
    }
  }

  lemma JoinOrdered(free: seq<Block>, k: nat)
    requires Ordered(free) && k + 1 < |free|
    requires var j := Joined(free[k], free[k + 1]); j.addr == free[k].addr && End(j) == End(free[k + 1])
    ensures Ordered(JoinAt(free, k))
    ensures var f := JoinAt(free, k); forall i, j :: 0 <= i < j < |f| ==> f[i] != f[j]
  {
    var f := JoinAt(free, k);
    assert forall i :: 0 <= i < |f| ==>
        f[i] == if i < k then free[i] else if i == k then Joined(free[k], free[k + 1]) else free[i + 1];
  }

  /** Ordered blocks of which no two successive ones touch are separated. */
  lemma OrderedToSeparated(free: seq<Block>)
    requires Ordered(free)
    requires forall i :: 0 <= i < |free| - 1 ==> End(free[i]) != free[i + 1].addr
    ensures Separated(free)
  {
    forall i, j | 0 <= i < j < |free| ensures End(free[i]) < free[j].addr {
      assert End(free[i]) <= free[i + 1].addr;
    }
  }

  /** No block of the list touches its successor, except perhaps number k - 1 or k. */
  predicate ApartExcept(free: seq<Block>, k: int, l: int)
  {
    forall i :: 0 <= i < |free| - 1 && i != k && i != l ==> End(free[i]) != free[i + 1].addr
  }

  lemma InsertApart(free: seq<Block>, k: nat, b: Block)
    requires Separated(free) && k <= |free|
    ensures ApartExcept(Insert(free, k, b), k - 1, k)
  {
    var f := Insert(free, k, b);
    assert forall i :: 0 <= i < |f| ==> f[i] == if i < k then free[i] else if i == k then b else free[i - 1];
  }

  lemma JoinApart(free: seq<Block>, k: nat, l: int)
    requires k + 1 < |free| && ApartExcept(free, l, k) && l < k
    requires var j := Joined(free[k], free[k + 1]); j.addr == free[k].addr && End(j) == End(free[k + 1])
    ensures ApartExcept(JoinAt(free, k), l, l)
  {
    var f := JoinAt(free, k);
    assert forall i :: 0 <= i < |f| ==>
        f[i] == if i < k then free[i] else if i == k then Joined(free[k], free[k + 1]) else free[i + 1];
  }

  /** One join keeps the middle invariant and removes the touching pair. */
  lemma JoinStep(r: Region, h: Heap, k: nat, l: int)
    requires MidInv(r, h) && k + 1 < |h.free| && End(h.free[k]) == h.free[k + 1].addr
    requires l < k && ApartExcept(h.free, l, k)
    ensures MidInv(r, Heap(JoinAt(h.free, k), h.live))
    ensures ApartExcept(JoinAt(h.free, k), l, l)
  {
    JoinMidInv(r, h, k);
    JoinApart(h.free, k, l);
  }

  /** The list with the freed block in it, joined to its successor if they touch. */
  function InsertJoinNext(free: seq<Block>, k: nat, b: Block): (f: seq<Block>)
    requires k <= |free|
    ensures k < |f| && f[k].addr == b.addr
    ensures k > 0 ==> f[k - 1] == free[k - 1]
  {
    if k < |free| && End(b) == free[k].addr then JoinAt(Insert(free, k, b), k) else Insert(free, k, b)
  }

  lemma InsertJoinNextInv(r: Region, h: Heap, b: Block)
    requires Inv(r, h) && b in h.live
    ensures var k := Position(h.free, b.addr);
            var f := InsertJoinNext(h.free, k, b);
            MidInv(r, Heap(f, h.live - {b})) && ApartExcept(f, k - 1, k - 1)
  {
    hide MidInv;
    hide Tiled;
    hide Aligned;
    hide ApartExcept;
    var k := Position(h.free, b.addr);
    var f := Insert(h.free, k, b);
    assert MidInv(r, Heap(f, h.live - {b})) by { InsertMidInv(r, h, b); }
    assert ApartExcept(f, k - 1, k) by { InsertApart(h.free, k, b); }
    assert f[k] == b && (k < |h.free| ==> f[k + 1] == h.free[k]);
    if k < |h.free| && End(b) == h.free[k].addr {
      JoinStep(r, Heap(f, h.live - {b}), k, k - 1);
    } else {
      ApartAlready(f, k);
    }
  }

  lemma ApartAlready(free: seq<Block>, k: nat)
    requires ApartExcept(free, k - 1, k) && (k + 1 < |free| ==> End(free[k]) != free[k + 1].addr)
    ensures ApartExcept(free, k - 1, k - 1)
  {
  }

  /** The free operation is that insertion, joined to its predecessor if they touch. */
  lemma FreeSteps(free: seq<Block>, k: nat, b: Block)
    requires k <= |free|
    ensures var f := InsertJoinNext(free, k, b);
            InsertAt(free, k, b) == if k > 0 && End(free[k - 1]) == b.addr then JoinAt(f, k - 1) else f
  {
    var f1 := Insert(free, k, b);
    var f2 := InsertJoinNext(free, k, b);
    assert f1[..k] == free[..k] && f1[k] == b && f1[k + 1..] == free[k..];
    if k < |free| && End(b) == free[k].addr {
      assert f1[k + 1] == free[k] && f1[k + 2..] == free[k + 1..];
    }
    if k > 0 {
      assert f2[..k - 1] == free[..k - 1];
      assert f2[k + 1..] == if k < |free| && End(b) == free[k].addr then free[k + 1..] else free[k..];
    }
  }

  lemma FreeInv(r: Region, h: Heap, b: Block)
    requires Inv(r, h) && b in h.live
    ensures Inv(r, Free(h, b))
  {
    hide MidInv;
    hide ApartExcept;
    hide InsertAt;
    hide Inv;
    hide JoinAt;
    var k := Position(h.free, b.addr);
    var f := InsertJoinNext(h.free, k, b);
    InsertJoinNextInv(r, h, b);
    FreeSteps(h.free, k, b);
    hide InsertJoinNext;
    if k > 0 && End(h.free[k - 1]) == b.addr {
      ApartSame(f, k - 1);
      JoinStep(r, Heap(f, h.live - {b}), k - 1, -1);
      FreeDone(r, Free(h, b), -1);
    } else {
      var front: int := k;
      FreeDone(r, Free(h, b), front - 1);
    }
  }

  lemma ApartSame(free: seq<Block>, k: int)
    requires ApartExcept(free, k, k)
    ensures ApartExcept(free, -1, k)
  {
  }

  /** No two free blocks touch once the last pair in question does not. */
  lemma FreeDone(r: Region, h: Heap, k: int)
    requires MidInv(r, h) && ApartExcept(h.free, k, k)
    requires 0 <= k < |h.free| - 1 ==> End(h.free[k]) != h.free[k + 1].addr
    ensures Inv(r, h)
  {
    hide Tiled;
    hide Aligned;
    OrderedToSeparated(h.free);
  }
}
