/**
 The process table of os/proc.c on top of the user heap: proc_create with its rollback
 paths, and proc_free.  A process structure and its argument block are two heap blocks.
 */
module Proc {
  import opened Options
  import opened HeapSpec
  import opened HeapLaws
  import opened CString
  import opened Errno
  import opened Queues
  import UserHeap

  const NULL: nat := UserHeap.NULL
  const ARG_MAX := 128
  const ARGC_MAX := 64
  const POINTER_SIZE := 2
  const DEFAULT_UMASK := 0x12

  /** The fields of struct proc that proc_create fills in. */
  datatype ProcInfo = ProcInfo(pid: nat, ppid: nat, argv: nat, cwd: string, umask: nat)

  // --- The size of the argument block -----------------------------------------

  /** Bytes for the strings: each cut to ARG_MAX, plus its NUL; a NULL argument is empty. */
  function StringBytes(args: seq<Option<string>>): (n: nat)
    ensures n <= |args| * (ARG_MAX + 1)
  {
    if args == [] then 0
    else StringBytes(args[..|args| - 1]) + ConstrainedLength(args[|args| - 1], ARG_MAX) + 1
  }

  function ArgvBytes(args: seq<Option<string>>): nat { (|args| + 1) * POINTER_SIZE + StringBytes(args) }

  predicate GoodArgs(args: seq<Option<string>>)
  {
    forall i :: 0 <= i < |args| && args[i].Some? ==> IsCString(args[i].value)
  }

  lemma NoBytes()
    ensures StringBytes([]) == 0
  {
  }

  lemma NextBytes(args: seq<Option<string>>, k: nat)
    requires k < |args| <= ARGC_MAX
    ensures StringBytes(args[..k + 1]) == StringBytes(args[..k]) + ConstrainedLength(args[k], ARG_MAX) + 1
    ensures StringBytes(args[..k + 1]) <= ARGC_MAX * (ARG_MAX + 1)
  {
    var a := args[..k + 1];
    assert |a| == k + 1 && a[..k] == args[..k] && a[k] == args[k];
  }

  /** The sizing loop of kmalloc_copy_argv, in 16-bit arithmetic that never wraps. */
  method CountArgvBytes(args: seq<Option<string>>) returns (size: nat)
    requires |args| <= ARGC_MAX && GoodArgs(args)
    ensures size == ArgvBytes(args) && size + 3 < WORD
  {
    hide StringBytes;
    size := (|args| + 1) * POINTER_SIZE % WORD;
    assert args[..0] == [];
    NoBytes();
    for index := 0 to |args|
      invariant size == (|args| + 1) * POINTER_SIZE + StringBytes(args[..index])
    {
      NextBytes(args, index);
      var len := StrlenConstrained(args[index], ARG_MAX);
      if args[index].Some? {
        size := (size + len) % WORD;
      }
      size := (size + 1) % WORD;
    }
    assert args[..|args|] == args;
  }

  // --- The contents of the argument block --------------------------------------

  /** An argument as it is copied: cut to ARG_MAX, and a NULL argument is empty. */
  function Cut(arg: Option<string>): (s: string)
    ensures |s| == ConstrainedLength(arg, ARG_MAX)
  {
    if arg.None? then "" else arg.value[..Min(|arg.value|, ARG_MAX)]
  }

  /** The string part of the block: every argument and its NUL, one after the other. */
  function Strings(args: seq<Option<string>>): (s: string)
    ensures |s| == StringBytes(args)
  {
    if args == [] then "" else Strings(args[..|args| - 1]) + (Cut(args[|args| - 1]) + [NUL])
  }

  // Reading the block back.

  function FirstNul(s: string): (k: nat)
    requires NUL in s
    ensures k < |s| && s[k] == NUL && NUL !in s[..k]
  {
    if s[0] == NUL then 0 else 1 + FirstNul(s[1..])
  }

  /** The C strings that follow each other in `s`, as many as there are. */
  function ReadStrings(s: string): seq<string>
    decreases |s|
  {
    if NUL !in s then [] else [s[..FirstNul(s)]] + ReadStrings(s[FirstNul(s) + 1..])
  }

  lemma StringsLast(args: seq<Option<string>>)
    requires args != []
    ensures Strings(args) == Strings(args[..|args| - 1]) + (Cut(args[|args| - 1]) + [NUL])
    ensures Strings([]) == ""
  {
    hide Cut;
    hide StringBytes;
  }

  lemma {:induction false} StringsFirst(args: seq<Option<string>>)
    requires args != []
    ensures Strings(args) == Cut(args[0]) + [NUL] + Strings(args[1..])
    decreases |args|
  {
    hide Cut;
    hide Strings;
    hide StringBytes;
    var n := |args| - 1;
    StringsLast(args);
    var first, last := Cut(args[0]) + [NUL], Cut(args[n]) + [NUL];
    if n > 0 {
      StringsFirst(args[..n]);
      StringsLast(args[1..]);
      assert args[..n][1..] == args[1..][..n - 1];
      var mid := Strings(args[1..][..n - 1]);
      assert first + mid + last == first + (mid + last);
    } else {
      assert args[..n] == [] && args[1..] == [];
      assert "" + last == last + "";
    }
  }

  lemma {:induction false} FirstNulIs(a: string, rest: string)
    requires NUL !in a
    ensures var s := a + [NUL] + rest; s[|a|] in s && FirstNul(s) == |a| && s[..|a|] == a && s[|a| + 1..] == rest
  {
    var s := a + [NUL] + rest;
    if a != [] {
      FirstNulIs(a[1..], rest);
      assert s[1..] == a[1..] + [NUL] + rest;
    }
  }

  lemma ReadOne(a: string, rest: string)
    requires NUL !in a
    ensures ReadStrings(a + [NUL] + rest) == [a] + ReadStrings(rest)
  {
    FirstNulIs(a, rest);
    hide FirstNul;
  }

  /** The strings of the block are the arguments, in order: each cut to 128 characters, and an
      empty one for NULL. */
  lemma {:induction false} StringsReadBack(args: seq<Option<string>>)
    requires GoodArgs(args)
    ensures var back := ReadStrings(Strings(args));
            && |back| == |args|
            && forall i :: 0 <= i < |args| ==>
                 back[i] == if args[i].None? then "" else args[i].value[..Min(|args[i].value|, 128)]
    decreases |args|
  {
    hide ReadStrings;
    if args == [] {
      NoStrings();
    } else {
      StringsFirst(args);
      CutIsClean(args[0]);
      ReadOne(Cut(args[0]), Strings(args[1..]));
      StringsReadBack(args[1..]);
      hide Strings;
      forall i | 0 < i < |args| ensures ReadStrings(Strings(args))[i] == ReadStrings(Strings(args[1..]))[i - 1] {}
    }
  }

  lemma NoStrings()
    ensures ReadStrings(Strings([])) == []
  {
  }

  lemma CutIsClean(arg: Option<string>)
    requires arg.Some? ==> IsCString(arg.value)
    ensures NUL !in Cut(arg)
  {
  }

  /** Where the string part starts. */
  function TableBytes(argc: nat): nat { (argc + 1) * POINTER_SIZE }

  /** Writes a text into the block. */
  method PutText(buf: array<char>, at: nat, text: string)
    requires at + |text| <= buf.Length
    modifies buf
    ensures forall j :: 0 <= j < |text| ==> buf[at + j] == text[j]
    ensures forall j :: 0 <= j < buf.Length && !(at <= j < at + |text|) ==> buf[j] == old(buf[j])
  {
    forall j | 0 <= j < |text| {
      buf[at + j] := text[j];
    }
  }

  lemma NextString(args: seq<Option<string>>, k: nat)
    requires k < |args|
    ensures Strings(args[..k + 1]) == Strings(args[..k]) + (Cut(args[k]) + [NUL])
  {
    hide StringBytes;
    hide Cut;
    var a := args[..k + 1];
    assert |a| == k + 1 && a[..k] == args[..k] && a[k] == args[k];
  }

  /** The block is as it was but for the text `done` from `start` on. */
  predicate Filled(b: string, was: string, start: nat, done: string)
  {
    && |b| == |was| && start + |done| <= |b|
    && (forall j :: 0 <= j < |done| ==> b[start + j] == done[j])
    && (forall j :: 0 <= j < |b| && !(start <= j < start + |done|) ==> b[j] == was[j])
  }

  lemma FilledMore(b: string, b': string, was: string, start: nat, done: string, text: string)
    requires Filled(b, was, start, done) && |b'| == |b| && start + |done| + |text| <= |b|
    requires forall j :: 0 <= j < |text| ==> b'[start + |done| + j] == text[j]
    requires forall j :: 0 <= j < |b| && !(start + |done| <= j < start + |done| + |text|) ==> b'[j] == b[j]
    ensures Filled(b', was, start, done + text)
  {
    var more := done + text;
    forall j | 0 <= j < |more| ensures b'[start + j] == more[j] {
      if j >= |done| {
        assert b'[start + |done| + (j - |done|)] == text[j - |done|];
      } else {
        assert b[start + j] == done[j];
      }
    }
  }

  /** The formatting loop. */
  method CopyStrings(buf: array<char>, args: seq<Option<string>>)
    requires buf.Length >= ArgvBytes(args) && GoodArgs(args)
    modifies buf
    ensures Filled(buf[..], old(buf[..]), TableBytes(|args|), Strings(args))
  {
    hide StringBytes;
    hide Strings;
    hide Filled;
    ghost var was := buf[..];
    var start := (|args| + 1) * POINTER_SIZE;
    var out := start;
    NothingFilled(was, start);
    assert args[..0] == [];
    for index := 0 to |args|
      invariant out == start + |Strings(args[..index])| && out <= ArgvBytes(args)
      invariant Filled(buf[..], was, start, Strings(args[..index]))
    {
      hide Cut;
      NextString(args, index);
      BytesGrow(args, index + 1);
      var len := StrlenConstrained(args[index], ARG_MAX);
      var text := (if args[index].Some? then args[index].value[..len] else "") + [NUL];
      CutIs(args[index]);
      ghost var now := buf[..];
      PutText(buf, out, text);
      FilledMore(now, buf[..], was, start, Strings(args[..index]), text);
      out := out + |text|;
    }
    assert args[..|args|] == args;
  }

  lemma NothingFilled(b: string, start: nat)
    requires start <= |b|
    ensures Strings([]) == "" && Filled(b, b, start, Strings([]))
  {
  }

  lemma CutIs(arg: Option<string>)
    ensures Cut(arg) == if arg.Some? then arg.value[..ConstrainedLength(arg, ARG_MAX)] else ""
  {
  }

  /** kmalloc_copy_argv on a block of at least the size that was counted: the strings fill it
      exactly up to that size, the last pointer is NULL, and no other byte is written, the other
      pointers included. */
  method FormatArgv(buf: array<char>, args: seq<Option<string>>)
    requires buf.Length >= ArgvBytes(args) && GoodArgs(args)
    modifies buf
    ensures Filled(buf[..], old(buf[..]), |args| * POINTER_SIZE, [NUL, NUL] + Strings(args))
  {
    hide StringBytes;
    hide Strings;
    CopyStrings(buf, args);
    ghost var now := buf[..];
    hide Filled;
    var last := |args| * POINTER_SIZE;
    ghost var none := [NUL, NUL];
    PutText(buf, last, [NUL, NUL]);
    assert buf[last + 0] == none[0] && buf[last + 1] == none[1];
    assert TableBytes(|args|) == last + 2;
    FilledBefore(now, buf[..], old(buf[..]), |args| * POINTER_SIZE, Strings(args));
  }

  lemma FilledBefore(b: string, b': string, was: string, at: nat, done: string)
    requires Filled(b, was, at + 2, done) && |b'| == |b| && b'[at] == NUL && b'[at + 1] == NUL
    requires forall j :: 0 <= j < |b| && j != at && j != at + 1 ==> b'[j] == b[j]
    ensures Filled(b', was, at, [NUL, NUL] + done)
  {
    var all := [NUL, NUL] + done;
    forall j | 0 <= j < |all| ensures b'[at + j] == all[j] {
      if j >= 2 {
        assert b[at + 2 + (j - 2)] == done[j - 2];
      }
    }
  }

  lemma {:induction false} BytesGrow(args: seq<Option<string>>, k: nat)
    requires k <= |args|
    ensures StringBytes(args[..k]) <= StringBytes(args)
    decreases |args| - k
  {
    if k < |args| {
      BytesGrow(args, k + 1);
      assert args[..k + 1][..k] == args[..k];
    } else {
      assert args[..k] == args;
    }
  }

  /** The block that is allocated for the arguments is as large as what is written to it. */
  lemma ArgvFits(r: Region, h: Heap, args: seq<Option<string>>)
    requires Inv(r, h) && |args| <= ARGC_MAX && CanAlloc(h, ArgvBytes(args))
    ensures Alloc(1, h, ArgvBytes(args)).block.size >= ArgvBytes(args)
  {
    hide Inv;
    AllocIsLargeEnough(r, h, ArgvBytes(args));
  }

  // --- The heap part of a creation ----------------------------------------------

  /** Freeing the argument block and then the process structure of a new process restores
      the heap exactly, although that is not the reverse of the order of allocation. */
  lemma CreateFreeRoundTrip(r: Region, h: Heap, argBytes: nat, procSize: nat)
    requires Inv(r, h) && argBytes < WORD && procSize < WORD
    requires CanAlloc(h, argBytes) && CanAlloc(Alloc(1, h, argBytes).heap, procSize)
    ensures var a := Alloc(1, h, argBytes);
            var p := Alloc(1, a.heap, procSize);
            a.block in p.heap.live && Free(Free(p.heap, a.block), p.block) == h
  {
    hide Inv;
    hide Alloc;
    hide InsertAt;
    var a := Alloc(1, h, argBytes);
    var p := Alloc(1, a.heap, procSize);
    AllocInv(r, h, argBytes);
    AllocInv(r, a.heap, procSize);
    FreeInv(r, p.heap, a.block);
    FreeInv(r, Free(p.heap, a.block), p.block);
    assert Free(Free(p.heap, a.block), p.block).live == h.live;
    FreeListIsCanonical(r, h, Free(Free(p.heap, a.block), p.block));
  }

  // --- Who owns which heap block --------------------------------------------------

  /** The pointer that the owner of a block uses. */
  function User(b: Block): nat { b.addr + HEADER }

  predicate Owned(live: set<Block>, ptr: nat) { exists b :: b in live && User(b) == ptr }

  /** The live block that a user pointer belongs to. */
  ghost function BlockAt(live: set<Block>, ptr: nat): (b: Block)
    requires Owned(live, ptr)
    ensures b in live && User(b) == ptr
  {
    var b :| b in live && User(b) == ptr; b
  }

  predicate InUse(slots: seq<nat>, i: int) { 0 <= i < |slots| && slots[i] != NULL }

  /** Pointer `ptr` is the process structure or the argument block of slot `i`. */
  predicate Holds(slots: seq<nat>, procs: map<nat, ProcInfo>, i: int, ptr: nat)
  {
    InUse(slots, i) && slots[i] in procs && (ptr == slots[i] || ptr == procs[slots[i]].argv)
  }

  ghost predicate SlotsFilled(slots: seq<nat>, procs: map<nat, ProcInfo>)
  {
    forall i :: InUse(slots, i) ==>
      slots[i] in procs && procs[slots[i]].pid == i + 1 && slots[i] != procs[slots[i]].argv
  }

  ghost predicate HeldIsLive(live: set<Block>, slots: seq<nat>, procs: map<nat, ProcInfo>)
  {
    forall i, ptr :: Holds(slots, procs, i, ptr) ==> Owned(live, ptr)
  }

  ghost predicate HeldOnce(slots: seq<nat>, procs: map<nat, ProcInfo>)
  {
    forall i, j, ptr :: Holds(slots, procs, i, ptr) && Holds(slots, procs, j, ptr) ==> i == j
  }

  ghost predicate NoLeak(live: set<Block>, slots: seq<nat>, procs: map<nat, ProcInfo>)
  {
    forall b :: b in live ==> exists i :: Holds(slots, procs, i, User(b))
  }

  /** Every slot in use holds two live blocks, no block is held twice, and none is leaked. */
  ghost predicate Ownership(live: set<Block>, slots: seq<nat>, procs: map<nat, ProcInfo>)
  {
    SlotsFilled(slots, procs) && HeldIsLive(live, slots, procs) && HeldOnce(slots, procs) && NoLeak(live, slots, procs)
  }

  lemma FreeLive(h: Heap, b: Block)
    ensures Free(h, b).live == h.live - {b}
  {
  }

  /** A process is in the slot of its number. */
  lemma SlotOfProc(live: set<Block>, slots: seq<nat>, procs: map<nat, ProcInfo>, p: nat)
    requires Ownership(live, slots, procs) && exists i :: InUse(slots, i) && slots[i] == p
    ensures p in procs && InUse(slots, procs[p].pid - 1) && slots[procs[p].pid - 1] == p
  {
  }

  /** Index of the first unused slot; the length of the table if there is none. */
  function FirstUnused(slots: seq<nat>): nat { FirstIndex(slots, NULL, 0) }

  /** What slot `k` holds after it is filled; the other slots hold what they held. */
  lemma HoldsAfterAdd(live: set<Block>, slots: seq<nat>, procs: map<nat, ProcInfo>, k: nat, ptr: nat, info: ProcInfo,
                      i: int, q: nat)
    requires SlotsFilled(slots, procs) && HeldIsLive(live, slots, procs)
    requires k < |slots| && slots[k] == NULL && ptr != NULL && !Owned(live, ptr)
    ensures Holds(slots[k := ptr], procs[ptr := info], i, q) <==>
            if i == k then q == ptr || q == info.argv else Holds(slots, procs, i, q)
  {
    if InUse(slots, i) {
      assert Holds(slots, procs, i, slots[i]);
    }
  }

  lemma AddOwner(live: set<Block>, slots: seq<nat>, procs: map<nat, ProcInfo>, k: nat,
                 a: Block, p: Block, info: ProcInfo)
    requires Ownership(live, slots, procs) && k < |slots| && slots[k] == NULL
    requires info.pid == k + 1 && info.argv == User(a) && a.addr != p.addr
    requires forall b :: b in live ==> b.addr != a.addr && b.addr != p.addr
    ensures Ownership(live + {a} + {p}, slots[k := User(p)], procs[User(p) := info])
  {
    var ptr := User(p);
    var slots', procs', live' := slots[k := ptr], procs[ptr := info], live + {a} + {p};
    assert SlotsFilled(slots', procs') by {
      forall i | InUse(slots', i) && i != k ensures slots'[i] != ptr {
        assert Holds(slots, procs, i, slots[i]);
      }
    }
    assert HeldIsLive(live', slots', procs') by {
      forall i, q | Holds(slots', procs', i, q) ensures Owned(live', q) {
        HoldsAfterAdd(live, slots, procs, k, ptr, info, i, q);
        var b := if i != k then BlockAt(live, q) else if q == ptr then p else a;
        assert b in live' && User(b) == q;
      }
    }
    assert HeldOnce(slots', procs') by {
      forall i, j, q | Holds(slots', procs', i, q) && Holds(slots', procs', j, q) ensures i == j {
        HoldsAfterAdd(live, slots, procs, k, ptr, info, i, q);
        HoldsAfterAdd(live, slots, procs, k, ptr, info, j, q);
        assert !Owned(live, ptr) && !Owned(live, info.argv);
      }
    }
    assert NoLeak(live', slots', procs') by {
      forall b | b in live' ensures exists i :: Holds(slots', procs', i, User(b)) {
        if b in live {
          var i :| Holds(slots, procs, i, User(b));
          HoldsAfterAdd(live, slots, procs, k, ptr, info, i, User(b));
          assert Holds(slots', procs', i, User(b));
        } else {
          HoldsAfterAdd(live, slots, procs, k, ptr, info, k, User(b));
          assert Holds(slots', procs', k, User(b));
        }
      }
    }
  }

  lemma DropOwner(live: set<Block>, slots: seq<nat>, procs: map<nat, ProcInfo>, k: nat, a: Block, p: Block)
    requires Ownership(live, slots, procs) && InUse(slots, k)
    requires a in live && User(a) == procs[slots[k]].argv
    requires p in live && User(p) == slots[k]
    requires forall b, c :: b in live && c in live && b.addr == c.addr ==> b == c
    ensures Ownership(live - {a} - {p}, slots[k := NULL], procs)
  {
    var slots', live' := slots[k := NULL], live - {a} - {p};
    assert Holds(slots, procs, k, slots[k]) && Holds(slots, procs, k, procs[slots[k]].argv);
    assert HeldIsLive(live', slots', procs) by {
      forall i, q | Holds(slots', procs, i, q) ensures Owned(live', q) {
        assert Holds(slots, procs, i, q);
        var b := BlockAt(live, q);
        assert b in live' && User(b) == q;
      }
    }
    assert HeldOnce(slots', procs) by {
      forall i, j, q | Holds(slots', procs, i, q) && Holds(slots', procs, j, q) ensures i == j {
        assert Holds(slots, procs, i, q) && Holds(slots, procs, j, q);
      }
    }
    assert NoLeak(live', slots', procs) by {
      forall b | b in live' ensures exists i :: Holds(slots', procs, i, User(b)) {
        var i :| Holds(slots, procs, i, User(b));
        assert i != k;
        assert Holds(slots', procs, i, User(b));
      }
    }
  }

  /** The argument block and the process structure both fit. */
  predicate BothFit(h: Heap, argBytes: nat, procSize: nat)
  {
    CanAlloc(h, argBytes) && CanAlloc(Alloc(1, h, argBytes).heap, procSize)
  }

  /** The block that an allocation returns is at an address that no live block had. */
  lemma NewAddress(r: Region, h: Heap, request: nat)
    requires Inv(r, h) && request < WORD && CanAlloc(h, request)
    ensures var res := Alloc(1, h, request);
            Inv(r, res.heap) && res.heap.live == h.live + {res.block} && UserHeap.NotLive(h.live, res.block.addr)
  {
    var res := Alloc(1, h, request);
    AllocInv(r, h, request);
    UserHeap.LiveIsNotListed(r, res.heap, res.block);
  }

  lemma LiveAddressesDiffer(r: Region, h: Heap)
    requires Inv(r, h)
    ensures forall b, c :: b in h.live && c in h.live && b.addr == c.addr ==> b == c
  {
    forall b, c | b in h.live && c in h.live && b != c ensures b.addr != c.addr {
      UserHeap.LiveIsNotListed(r, h, b);
    }
  }

  class ProcTable {
    const heap: UserHeap.UserHeap
    const slots: array<nat>
    const procSize: nat
    var procs: map<nat, ProcInfo>

    ghost predicate Valid()
      reads this, heap, slots
    {
      && heap.Valid() && procSize < WORD
      && Ownership(heap.live, slots[..], procs)
    }

    constructor (heap: UserHeap.UserHeap, procMax: nat, procSize: nat)
      requires heap.Valid() && heap.live == {} && procSize < WORD
      ensures Valid() && this.heap == heap && fresh(slots) && this.procSize == procSize
      ensures slots.Length == procMax && forall i :: 0 <= i < procMax ==> slots[i] == NULL
    {
      this.heap := heap;
      this.procSize := procSize;
      slots := new nat[procMax](_ => NULL);
      procs := map[];
    }

    /** The search for an unused process structure. */
    method FindSlot() returns (pid: nat)
      ensures pid == FirstUnused(slots[..])
    {
      pid := 0;
      while pid < slots.Length
        invariant pid <= slots.Length && FirstUnused(slots[..]) == FirstIndex(slots[..], NULL, pid)
      {
        if slots[pid] == NULL {
          return;
        }
        pid := pid + 1;
      }
    }

    /** proc_create.  Every failing return leaves the heap and the process table as found; a
        successful one takes the lowest slot and exactly two new blocks. */
    method Create(ppid: nat, argc: int, argv: Option<seq<Option<string>>>) returns (err: int, p: nat)
      requires Valid()
      requires argv.Some? && 1 <= argc <= ARGC_MAX ==> argc <= |argv.value| && GoodArgs(argv.value)
      requires ppid != 0 ==> InUse(slots[..], ppid - 1)
      modifies this, heap, slots
      ensures Valid()
      ensures err == if argv.None? then -EFAULT else if argc < 1 then -EINVAL else if argc > ARGC_MAX then -E2BIG
                     else if FirstUnused(old(slots[..])) == slots.Length
                             || !BothFit(old(heap.View()), ArgvBytes(argv.value[..argc]), procSize) then -ENOMEM
                     else 0
      ensures err != 0 ==> heap.View() == old(heap.View()) && slots[..] == old(slots[..]) && procs == old(procs)
      ensures err == 0 ==>
                var a := Alloc(1, old(heap.View()), ArgvBytes(argv.value[..argc]));
                var b := Alloc(1, a.heap, procSize);
                var k := FirstUnused(old(slots[..]));
                && p == User(b.block) && heap.View() == b.heap
                && slots[..] == old(slots[..])[k := p]
                && p in procs && procs[p].pid == k + 1 && procs[p].ppid == ppid && procs[p].argv == User(a.block)
                && procs[p].cwd == (if ppid == 0 then "/root" else old(procs[slots[ppid - 1]].cwd))
                && procs[p].umask == (if ppid == 0 then DEFAULT_UMASK else old(procs[slots[ppid - 1]].umask))
                && forall q :: q in old(procs) && q != p ==> q in procs && procs[q] == old(procs)[q]
    {
      hide Inv;
      hide Alloc;
      if argv.None? { return -EFAULT, NULL; }
      if argc < 1 { return -EINVAL, NULL; }
      if argc > ARGC_MAX { return -E2BIG, NULL; }
      var size := CountArgvBytes(argv.value[..argc]);
      var argvCopy, pid;
      argvCopy, pid, p := AllocBlocks(size);
      if p == NULL { return -ENOMEM, NULL; }
      Install(ppid, argvCopy, pid, p, old(heap.View()), size);
      err := 0;
    }

    /** The allocations of proc_create, in the order of the source, with their rollback. */
    method AllocBlocks(size: nat) returns (argvCopy: nat, pid: nat, p: nat)
      requires heap.Valid() && size < WORD && procSize < WORD
      modifies heap
      ensures heap.Valid()
      ensures p == NULL <==> FirstUnused(slots[..]) == slots.Length || !BothFit(old(heap.View()), size, procSize)
      ensures p == NULL ==> heap.View() == old(heap.View())
      ensures p != NULL ==>
                var a := Alloc(1, old(heap.View()), size);
                var b := Alloc(1, a.heap, procSize);
                && heap.View() == b.heap && argvCopy == User(a.block) && p == User(b.block)
                && pid == FirstUnused(slots[..])
    {
      hide Inv;
      hide Alloc;
      hide Free;
      ghost var h := heap.View();
      p, pid := NULL, 0;
      argvCopy := heap.Alloc(size);
      if argvCopy == NULL { return; }
      ghost var a := Alloc(1, h, size);
      assert a.block in a.heap.live && Free(a.heap, a.block) == h by {
        AllocInv(heap.region, h, size);
        AllocFreeRoundTrip(heap.region, h, size);
      }
      pid := FindSlot();
      if pid >= slots.Length {
        heap.Free(argvCopy, a.block);
        return;
      }
      p := heap.Alloc(procSize);
      if p == NULL {
        heap.Free(argvCopy, a.block);
      }
    }

    /** Enters the new process in the table and fills in its structure. */
    method Install(ppid: nat, argvCopy: nat, pid: nat, p: nat, ghost h: Heap, ghost size: nat)
      requires Inv(heap.region, h) && size < WORD && procSize < WORD && BothFit(h, size, procSize)
      requires Ownership(h.live, slots[..], procs) && pid < slots.Length && slots[pid] == NULL
      requires ppid != 0 ==> InUse(slots[..], ppid - 1)
      requires argvCopy == User(Alloc(1, h, size).block)
      requires p == User(Alloc(1, Alloc(1, h, size).heap, procSize).block)
      modifies this, slots
      ensures Ownership(Alloc(1, Alloc(1, h, size).heap, procSize).heap.live, slots[..], procs)
      ensures slots[..] == old(slots[..])[pid := p]
      ensures ppid != 0 ==> old(slots[ppid - 1] in procs)
      ensures procs == old(procs)[p := ProcInfo(pid + 1, ppid, argvCopy,
                                                if ppid == 0 then "/root" else old(procs[slots[ppid - 1]].cwd),
                                                if ppid == 0 then DEFAULT_UMASK else old(procs[slots[ppid - 1]].umask))]
    {
      ghost var before := slots[..];
      ghost var a := Alloc(1, h, size);
      ghost var b := Alloc(1, a.heap, procSize);
      NewAddress(heap.region, h, size);
      NewAddress(heap.region, a.heap, procSize);
      var cwd, umask := "/root", DEFAULT_UMASK;
      if ppid != 0 {
        cwd, umask := procs[slots[ppid - 1]].cwd, procs[slots[ppid - 1]].umask;
      }
      var info := ProcInfo(pid + 1, ppid, argvCopy, cwd, umask);
      AddOwner(h.live, slots[..], procs, pid, a.block, b.block, info);
      slots[pid] := p;
      procs := procs[p := info];
      assert slots[..] == before[pid := p];
    }

    /** proc_free: unlinks the process and frees its two blocks, argument block first. */
    method Release(p: nat)
      requires Valid()
      requires exists i :: InUse(slots[..], i) && slots[i] == p
      modifies heap, slots
      ensures Valid()
      ensures slots[..] == old(slots[..])[procs[p].pid - 1 := NULL]
      ensures Owned(old(heap.live), procs[p].argv) && Owned(old(heap.live), p)
      ensures heap.View() ==
                Free(Free(old(heap.View()), BlockAt(old(heap.live), procs[p].argv)), BlockAt(old(heap.live), p))
    {
      hide Ownership;
      hide HeapSpec.Free;
      hide HeapSpec.Inv;
      hide BlockAt;
      ghost var h := heap.View();
      SlotOfProc(h.live, slots[..], procs, p);
      hide InUse;
      var k := procs[p].pid - 1;
      ghost var a, b := Unlink(k, p, h);
      FreeLive(h, a);
      FreeLive(Free(h, a), b);
      heap.Free(procs[p].argv, a);
      heap.Free(p, b);
    }

    method Unlink(k: nat, p: nat, ghost h: Heap) returns (ghost a: Block, ghost b: Block)
      requires Inv(heap.region, h) && Ownership(h.live, slots[..], procs) && InUse(slots[..], k) && slots[k] == p
      modifies slots
      ensures slots[..] == old(slots[..])[k := NULL]
      ensures Owned(h.live, procs[p].argv) && a == BlockAt(h.live, procs[p].argv)
      ensures Owned(h.live, p) && b == BlockAt(h.live, p) && a != b
      ensures Ownership(h.live - {a} - {b}, slots[..], procs)
    {
      ghost var before := slots[..];
      assert Holds(slots[..], procs, k, p) && Holds(slots[..], procs, k, procs[p].argv);
      a, b := BlockAt(h.live, procs[p].argv), BlockAt(h.live, p);
      LiveAddressesDiffer(heap.region, h);
      DropOwner(h.live, slots[..], procs, k, a, b);
      slots[k] := NULL;
      assert slots[..] == before[k := NULL];
    }
  }
}
