/**
 The user-space allocator of os/kmalloc.c as the pointer program it is: free blocks are
 linked through their headers, and both loops carry `prev` and the current block.  Addresses
 are 16-bit numbers and 0 is NULL; `next` and `size` hold the two header fields by header
 address.  Alloc and Free are proved to compute HeapSpec.Alloc and HeapSpec.Free.
 */
module UserHeap {
  import opened HeapSpec
  import opened Queues

  const NULL: nat := 0

  /** The address a link to element `i` of the list holds. */
  function AddrAt(free: seq<Block>, i: nat): nat { if i < |free| then free[i].addr else NULL }

  predicate DistinctAddrs(free: seq<Block>)
  {
    && (forall i :: 0 <= i < |free| ==> free[i].addr != NULL)
    && forall i, j :: 0 <= i < j < |free| ==> free[i].addr != free[j].addr
  }

  predicate NotListed(free: seq<Block>, addr: nat)
  {
    addr != NULL && forall i :: 0 <= i < |free| ==> free[i].addr != addr
  }

  /** The header fields of one list element. */
  predicate HeaderOk(next: map<nat, nat>, size: map<nat, nat>, free: seq<Block>, i: nat)
    requires i < |free|
  {
    var a := free[i].addr;
    a in next && next[a] == AddrAt(free, i + 1) && a in size && size[a] == free[i].size
  }

  /** Following the links from `head` visits exactly the blocks of `free`. */
  predicate Chain(head: nat, next: map<nat, nat>, size: map<nat, nat>, free: seq<Block>)
  {
    && DistinctAddrs(free)
    && head == AddrAt(free, 0)
    && forall i :: 0 <= i < |free| ==> HeaderOk(next, size, free, i)
  }

  lemma ChainInsertHead(head: nat, next: map<nat, nat>, size: map<nat, nat>, free: seq<Block>, b: Block)
    requires Chain(head, next, size, free) && NotListed(free, b.addr)
    requires b.addr in size && size[b.addr] == b.size
    ensures Chain(b.addr, next[b.addr := head], size, [b] + free)
  {
    var f := [b] + free;
    var next' := next[b.addr := head];
    forall i | 0 <= i < |f| ensures HeaderOk(next', size, f, i) {
      assert i > 0 ==> HeaderOk(next, size, free, i - 1);
    }
  }

  lemma InsertDistinct(free: seq<Block>, k: nat, b: Block)
    requires DistinctAddrs(free) && NotListed(free, b.addr) && k <= |free|
    ensures DistinctAddrs(Insert(free, k, b))
  {
    var f := Insert(free, k, b);
    assert forall i :: 0 <= i < |f| ==> f[i] == if i < k then free[i] else if i == k then b else free[i - 1];
  }

  lemma ChainInsertAfter(head: nat, next: map<nat, nat>, size: map<nat, nat>, free: seq<Block>, i: nat, b: Block)
    requires Chain(head, next, size, free) && NotListed(free, b.addr) && i < |free|
    requires b.addr in size && size[b.addr] == b.size
    ensures var prev := free[i].addr;
            prev in next && Chain(head, next[b.addr := next[prev]][prev := b.addr], size, Insert(free, i + 1, b))
  {
    var prev := free[i].addr;
    var f := Insert(free, i + 1, b);
    assert HeaderOk(next, size, free, i);
    var next' := next[b.addr := next[prev]][prev := b.addr];
    InsertDistinct(free, i + 1, b);
    forall k | 0 <= k < |f| ensures HeaderOk(next', size, f, k) {
      if k <= i {
        assert f[k] == free[k] && HeaderOk(next, size, free, k);
      } else if k > i + 1 {
        assert f[k] == free[k - 1] && HeaderOk(next, size, free, k - 1);
      }
    }
  }

  lemma ChainRemove(head: nat, next: map<nat, nat>, size: map<nat, nat>, free: seq<Block>, i: nat)
    requires Chain(head, next, size, free) && i < |free|
    ensures free[i].addr in next
    ensures if i == 0 then Chain(next[free[i].addr], next, size, Without(free, i))
            else Chain(head, next[free[i - 1].addr := next[free[i].addr]], size, Without(free, i))
  {
    var f := Without(free, i);
    assert forall k :: 0 <= k < |f| ==> f[k] == free[if k < i then k else k + 1];
    assert HeaderOk(next, size, free, i);
    var next' := if i == 0 then next else next[free[i - 1].addr := next[free[i].addr]];
    forall k | 0 <= k < |f| ensures HeaderOk(next', size, f, k) {
      assert HeaderOk(next, size, free, if k < i then k else k + 1);
    }
    assert DistinctAddrs(f);
  }

  lemma ChainResize(head: nat, next: map<nat, nat>, size: map<nat, nat>, free: seq<Block>, i: nat, n: nat)
    requires Chain(head, next, size, free) && i < |free|
    ensures Chain(head, next, size[free[i].addr := n], free[i := Block(free[i].addr, n)])
  {
    var f := free[i := Block(free[i].addr, n)];
    var size' := size[free[i].addr := n];
    forall k | 0 <= k < |f| ensures HeaderOk(next, size', f, k) {
      assert HeaderOk(next, size, free, k);
    }
  }

  /** Splitting element `i` and then unlinking its front part replaces it by the back part. */
  lemma CutIsUpdate(free: seq<Block>, i: nat, front: Block, back: Block)
    requires i < |free|
    ensures Without(Insert(free[i := front], i + 1, back), i) == free[i := back]
  {
  }

  /** Setting up a second header behind the first `want` bytes of element `i`. */
  lemma ChainSplit(head: nat, next: map<nat, nat>, size: map<nat, nat>, free: seq<Block>, i: nat, rest: Block,
                   want: nat)
    requires Chain(head, next, size, free) && i < |free| && NotListed(free, rest.addr)
    ensures var a := free[i].addr;
            && a in next && a in size && size[a] == free[i].size
            && Chain(head, next[rest.addr := next[a]][a := rest.addr], size[rest.addr := rest.size][a := want],
                     Insert(free[i := Block(a, want)], i + 1, rest))
  {
    var a := free[i].addr;
    var f := Insert(free, i + 1, rest);
    assert HeaderOk(next, size, free, i);
    ChainOtherSize(head, next, size, free, rest.addr, rest.size);
    ChainInsertAfter(head, next, size[rest.addr := rest.size], free, i, rest);
    assert f[i] == free[i] && f[i := Block(a, want)] == Insert(free[i := Block(a, want)], i + 1, rest);
    hide Chain;
    ChainResize(head, next[rest.addr := next[a]][a := rest.addr], size[rest.addr := rest.size], f, i, want);
  }

  /** A block added to its predecessor if they touch, or put in behind it. */
  function LinkIn(free: seq<Block>, k: nat, b: Block): seq<Block>
    requires k <= |free|
  {
    if k > 0 && End(free[k - 1]) == b.addr
    then free[..k - 1] + [Joined(free[k - 1], b)] + free[k..]
    else Insert(free, k, b)
  }

  lemma InsertAtIsLinkIn(free: seq<Block>, k: nat, b: Block)
    requires k <= |free|
    ensures InsertAt(free, k, b) ==
            if k < |free| && End(b) == free[k].addr then LinkIn(Without(free, k), k, Joined(b, free[k]))
            else LinkIn(free, k, b)
  {
    if k < |free| {
      var f := Without(free, k);
      assert f[..k] == free[..k] && f[k..] == free[k + 1..];
      if k > 0 { assert f[k - 1] == free[k - 1] && f[..k - 1] == free[..k - 1]; }
    }
  }

  /** Sizes of blocks off the list do not matter to it. */
  lemma ChainOtherSize(head: nat, next: map<nat, nat>, size: map<nat, nat>, free: seq<Block>, a: nat, n: nat)
    requires Chain(head, next, size, free) && NotListed(free, a)
    ensures Chain(head, next, size[a := n], free)
  {
    var size' := size[a := n];
    forall k | 0 <= k < |free| ensures HeaderOk(next, size', free, k) {
      assert HeaderOk(next, size, free, k);
    }
  }

  predicate LiveSizes(size: map<nat, nat>, live: set<Block>)
  {
    forall b :: b in live ==> b.addr in size && size[b.addr] == b.size
  }

  lemma AddLive(size: map<nat, nat>, live: set<Block>, b: Block)
    requires LiveSizes(size, live) && b.addr in size && size[b.addr] == b.size
    ensures LiveSizes(size, live + {b})
  {
  }

  // --- Facts from the heap invariant ----------------------------------------

  /** No other block has its header inside block `b`. */
  lemma OtherHeaders(r: Region, h: Heap, b: Block, a: nat)
    requires Inv(r, h) && b in Blocks(h) && Covers(b, a) && a != b.addr
    ensures NotListed(h.free, a)
    ensures forall c :: c in h.live ==> c.addr != a
  {
    forall c | c in Blocks(h) ensures c.addr != a {
      assert c != b ==> Disjoint(b, c);
    }
    forall i | 0 <= i < |h.free| ensures h.free[i].addr != a {
      assert h.free[i] in Blocks(h);
    }
  }

  /** The new header of a split is at an address that no block has. */
  lemma SplitHeader(r: Region, h: Heap, i: nat, want: nat)
    requires Inv(r, h) && i < |h.free| && want <= h.free[i].size && want % 4 == 0 && Splits(h.free[i].size, want)
    ensures var a := Rest(1, h.free[i], want).addr;
            && a == (h.free[i].addr + HEADER + want) % WORD == h.free[i].addr + HEADER + want
            && NotListed(h.free, a) && NotLive(h.live, a) && NotLive(h.live, h.free[i].addr)
  {
    FreeIsInside(r, h, i);
    SplitFacts(r, h, i, want);
    OtherHeaders(r, h, h.free[i], h.free[i].addr + HEADER + want);
    ListedIsNotLive(r, h, i);
  }

  lemma LiveIsNotListed(r: Region, h: Heap, b: Block)
    requires Inv(r, h) && b in h.live
    ensures NotListed(h.free, b.addr)
    ensures forall c :: c in h.live && c != b ==> c.addr != b.addr
  {
    assert b in Blocks(h) && Inside(r, b);
    forall i | 0 <= i < |h.free| ensures h.free[i].addr != b.addr {
      assert h.free[i] in Blocks(h) && Disjoint(h.free[i], b);
    }
    forall c | c in h.live && c != b ensures c.addr != b.addr {
      assert c in Blocks(h) && Disjoint(c, b);
    }
  }

  lemma ListedIsNotLive(r: Region, h: Heap, i: nat)
    requires Inv(r, h) && i < |h.free|
    ensures forall c :: c in h.live ==> c.addr != h.free[i].addr
  {
    forall c | c in h.live ensures c.addr != h.free[i].addr {
      LiveIsNotListed(r, h, c);
    }
  }

  predicate NotLive(live: set<Block>, addr: nat) { forall b :: b in live ==> b.addr != addr }

  /** Allocation as the code does it: split if need be, then take the block off the list. */
  lemma TakeIs(h: Heap, i: nat, want: nat)
    requires i < |h.free|
    ensures var b := h.free[i];
            var split := Splits(b.size, want);
            var list := if split then Insert(h.free[i := Block(b.addr, want)], i + 1, Rest(1, b, want)) else h.free;
            && i < |list|
            && AllocAt(1, h, i, want).block == list[i] == (if split then Block(b.addr, want) else b)
            && AllocAt(1, h, i, want).heap == Heap(Without(list, i), h.live + {list[i]})
  {
    var b := h.free[i];
    if Splits(b.size, want) {
      CutIsUpdate(h.free, i, Block(b.addr, want), Rest(1, b, want));
    }
  }

  class UserHeap {
    const region: Region
    var head: nat
    var next: map<nat, nat>
    var size: map<nat, nat>
    ghost var free: seq<Block>
    ghost var live: set<Block>

    ghost function View(): Heap reads this { Heap(free, live) }

    ghost predicate Linked()
      reads this
    {
      Chain(head, next, size, free)
    }

    ghost predicate Valid()
      reads this
    {
      Linked() && LiveSizes(size, live) && Inv(region, View())
    }

    /** kmalloc_init: all of user space is one free block. */
    constructor (r: Region)
      requires GoodRegion(r)
      ensures Valid() && region == r && View() == Init(r)
    {
      region := r;
      head := r.start;
      next := map[r.start := NULL];
      size := map[r.start := r.end - r.start - HEADER];
      free := [Block(r.start, r.end - r.start - HEADER)];
      live := {};
      new;
      InitInv(r);
    }

    // --- The SLIST macros -------------------------------------------------

    method InsertHead(b: Block)
      requires Linked() && NotListed(free, b.addr) && b.addr in size && size[b.addr] == b.size
      modifies this`head, this`next, this`free
      ensures Linked() && free == [b] + old(free)
    {
      ChainInsertHead(head, next, size, free, b);
      next := next[b.addr := head];
      head := b.addr;
      free := [b] + free;
    }

    method InsertAfter(prev: nat, b: Block, ghost i: nat)
      requires Linked() && i < |free| && prev == free[i].addr
      requires NotListed(free, b.addr) && b.addr in size && size[b.addr] == b.size
      modifies this`next, this`free
      ensures Linked() && free == Insert(old(free), i + 1, b)
    {
      ChainInsertAfter(head, next, size, free, i, b);
      assert HeaderOk(next, size, free, i);
      next := next[b.addr := next[prev]];
      next := next[prev := b.addr];
      free := Insert(free, i + 1, b);
    }

    /** SLIST_REMOVE_AFTER of os/kmalloc.c: the head is removed when there is no predecessor. */
    method RemoveAfter(prev: nat, elm: nat, ghost i: nat)
      requires Linked() && i < |free| && elm == free[i].addr
      requires prev == if i == 0 then NULL else free[i - 1].addr
      modifies this`head, this`next, this`free
      ensures Linked() && free == Without(old(free), i)
    {
      ChainRemove(head, next, size, free, i);
      assert HeaderOk(next, size, free, i);
      if prev != NULL {
        next := next[prev := next[elm]];
      } else {
        head := next[head];
      }
      free := Without(free, i);
    }

    // --- Allocation -------------------------------------------------------

    /** The search loop of kmalloc_user_alloc. */
    method FindFit(want: nat) returns (prev: nat, block: nat, ghost i: nat)
      requires Linked()
      ensures i == FirstFit(free, want) && block == AddrAt(free, i)
      ensures prev == if i == 0 then NULL else free[i - 1].addr
    {
      prev, block, i := NULL, head, 0;
      while block != NULL
        invariant 0 <= i <= FirstFit(free, want) && block == AddrAt(free, i)
        invariant prev == if i == 0 then NULL else free[i - 1].addr
        decreases |free| - i
      {
        assert HeaderOk(next, size, free, i);
        if size[block] >= want {
          return;
        }
        prev := block;
        block := next[block];
        i := i + 1;
      }
    }

    method Alloc(request: nat) returns (ptr: nat)
      requires Valid() && request < WORD
      modifies this
      ensures Valid()
      ensures if CanAlloc(old(View()), request)
              then var res := HeapSpec.Alloc(1, old(View()), request);
                   ptr == res.block.addr + HEADER && View() == res.heap
              else ptr == NULL && View() == old(View())
    {
      var want := RoundUp(request);
      ghost var h := View();
      ghost var i;
      var prev, block;
      prev, block, i := FindFit(want);
      if block == NULL {
        return NULL;
      }
      RoundUpFacts(request);
      AllocInv(region, h, request);
      Take(prev, block, want, i);
      ptr := block + HEADER;
    }

    /** Splits the block that was found if the guard says so, and unlinks it. */
    method Take(prev: nat, block: nat, want: nat, ghost i: nat)
      requires Valid() && i < |free| && block == free[i].addr && free[i].size >= want && want % 4 == 0
      requires prev == if i == 0 then NULL else free[i - 1].addr
      modifies this
      ensures Linked() && LiveSizes(size, live) && View() == AllocAt(1, old(View()), i, want).heap
    {
      ghost var h := View();
      ghost var b := free[i];
      assert HeaderOk(next, size, free, i);
      TakeIs(h, i, want);
      hide HeapSpec.Inv;
      hide AllocAt;
      hide Chain;
      hide LiveSizes;
      hide Rest;
      hide Insert;
      hide Without;
      if Splits(size[block], want) {
        Split(block, want, i);
      }
      RemoveAfter(prev, block, i);
      AddLive(size, live, AllocAt(1, h, i, want).block);
      live := live + {AllocAt(1, h, i, want).block};
    }

    /** The block2 part: the intended offset is `size` bytes past the header. */
    method Split(block: nat, want: nat, ghost i: nat)
      requires Valid() && i < |free| && block == free[i].addr && want <= free[i].size && want % 4 == 0
      requires Splits(free[i].size, want)
      modifies this`next, this`size, this`free
      ensures Linked() && LiveSizes(size, live) && block in size && size[block] == want
      ensures free == Insert(old(free)[i := Block(block, want)], i + 1, Rest(1, old(free)[i], want))
      ensures i == 0 || free[i - 1].addr == old(free)[i - 1].addr
    {
      hide Chain;
      hide Inv;
      SplitHeader(region, View(), i, want);
      ghost var rest := Rest(1, free[i], want);
      ChainSplit(head, next, size, free, i, rest, want);
      var block2 := (block + HEADER + want) % WORD;
      size := size[block2 := (size[block] - want - HEADER) % WORD];
      next := next[block2 := next[block]];
      next := next[block := block2];
      size := size[block := want];
      free := Insert(free[i := Block(block, want)], i + 1, rest);
    }

    // --- Freeing ------------------------------------------------------------

    /** The search loop of kmalloc_user_free: stops at the first free block above `block`. */
    method FindPosition(block: nat) returns (prev: nat, current: nat, ghost k: nat)
      requires Linked()
      ensures k == Position(free, block) && current == AddrAt(free, k)
      ensures prev == if k == 0 then NULL else free[k - 1].addr
    {
      prev, current, k := NULL, head, 0;
      while current != NULL
        invariant 0 <= k <= Position(free, block) && current == AddrAt(free, k)
        invariant prev == if k == 0 then NULL else free[k - 1].addr
        decreases |free| - k
      {
        if current > block {
          return;
        }
        assert HeaderOk(next, size, free, k);
        prev := current;
        current := next[current];
        k := k + 1;
      }
    }

    /** Takes the next free block off the list and adds its bytes to the block being freed. */
    method JoinNext(prev: nat, block: nat, current: nat, ghost k: nat, ghost b: Block)
      requires Linked() && LiveSizes(size, live) && k < |free| && current == free[k].addr
      requires prev == if k == 0 then NULL else free[k - 1].addr
      requires b.addr == block && block in size && size[block] == b.size
      requires NotListed(free, block) && NotLive(live, block)
      modifies this`head, this`next, this`size, this`free
      ensures Linked() && LiveSizes(size, live) && free == Without(old(free), k)
      ensures size.Keys == old(size).Keys && size[block] == Joined(b, old(free)[k]).size
    {
      assert HeaderOk(next, size, free, k);
      ghost var c := free[k];
      RemoveAfter(prev, current, k);
      ChainOtherSize(head, next, size, free, block, Joined(b, c).size);
      ghost var size0 := size;
      size := size[block := (size[block] + HEADER) % WORD];
      size := size[block := (size[block] + size[current]) % WORD];
      assert size == size0[block := Joined(b, c).size];
    }

    /** Adds the block to its predecessor, or links it in behind it. */
    method JoinPrev(prev: nat, block: nat, ghost k: nat, ghost b: Block)
      requires Linked() && LiveSizes(size, live) && k <= |free|
      requires prev == if k == 0 then NULL else free[k - 1].addr
      requires b.addr == block && block in size && size[block] == b.size
      requires NotListed(free, block) && forall i :: 0 <= i < |free| ==> NotLive(live, free[i].addr)
      modifies this`head, this`next, this`size, this`free
      ensures Linked() && LiveSizes(size, live)
      ensures free == LinkIn(old(free), k, b)
    {
      if prev != NULL {
        assert HeaderOk(next, size, free, k - 1);
        if prev + HEADER + size[prev] == block {
          ChainResize(head, next, size, free, k - 1, Joined(free[k - 1], b).size);
          ghost var size0 := size;
          size := size[prev := (size[prev] + HEADER) % WORD];
          size := size[prev := (size[prev] + size[block]) % WORD];
          assert size == size0[prev := Joined(free[k - 1], b).size];
          free := free[k - 1 := Joined(free[k - 1], b)];
        } else {
          InsertAfter(prev, Block(block, size[block]), k - 1);
        }
      } else {
        InsertHead(Block(block, size[block]));
      }
    }

    /** Puts a block that is not on the list back on it. */
    method Release(block: nat, ghost b: Block)
      requires Linked() && LiveSizes(size, live)
      requires b.addr == block && block in size && size[block] == b.size
      requires NotListed(free, block) && NotLive(live, block)
      requires forall i :: 0 <= i < |free| ==> NotLive(live, free[i].addr)
      modifies this`head, this`next, this`size, this`free
      ensures Linked() && LiveSizes(size, live)
      ensures free == InsertAt(old(free), Position(old(free), block), b)
    {
      hide InsertAt;
      hide LinkIn;
      ghost var f := free;
      ghost var k;
      var prev, current;
      prev, current, k := FindPosition(block);
      ghost var b' := b;
      if current != NULL && block + HEADER + size[block] == current {
        JoinNext(prev, block, current, k, b);
        b' := Joined(b, f[k]);
      }
      InsertAtIsLinkIn(f, k, b);
      JoinPrev(prev, block, k, b');
    }

    /** `b` is the live block that the pointer belongs to. */
    method Free(ptr: nat, ghost b: Block)
      requires Valid()
      requires ptr != NULL ==> b in live && ptr == b.addr + HEADER
      modifies this
      ensures Valid()
      ensures View() == if ptr == NULL then old(View()) else HeapSpec.Free(old(View()), b)
    {
      if ptr == NULL {
        return;
      }
      ghost var h := View();
      assert NotListed(free, b.addr) && NotLive(live - {b}, b.addr) by { LiveIsNotListed(region, h, b); }
      assert forall i :: 0 <= i < |free| ==> NotLive(live - {b}, free[i].addr) by {
        forall i | 0 <= i < |free| ensures NotLive(live - {b}, free[i].addr) { ListedIsNotLive(region, h, i); }
      }
      FreeInv(region, h, b);
      live := live - {b};
      Release(ptr - HEADER, b);
    }
  }
}
