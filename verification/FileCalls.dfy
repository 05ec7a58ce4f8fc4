/**
 The system calls on descriptors (os/file.c) as functions on the descriptor tables, and what
 holds over every run of them.
 */
module FileCalls {
  import opened Errno
  import opened Queues
  import opened FileSpec

  /** New state and result of a call. */
  datatype Call = Call(st: Files, result: int)

  /** Index of the first unused descriptor from `from` on; the length if there is none. */
  function FirstFree(row: seq<int>, from: nat): nat
    requires from <= |row|
  {
    FirstIndex(row, NONE, from)
  }

  /** Index of the first unused slot of the global table. */
  function FirstUnused(count: seq<int>): nat { FirstIndex(count, 0, 0) }

  /** file_get */
  function Get(st: Files, p: nat, fd: int): int
    requires p < |st.fd|
  {
    if 0 <= fd < |st.fd[p]| then st.fd[p][fd] else NONE
  }

  function ClearCloexec(st: Files, p: nat, i: nat): Files
    requires p < |st.cloexec| && i < |st.cloexec[p]|
  {
    st.(cloexec := st.cloexec[p := st.cloexec[p][i := false]])
  }

  predicate Good(z: Sizes, st: Files, p: nat) { Inv(z, st) && p < z.procs }

  /** file_open; `lookup` and `open` are the answers of the filesystem. */
  function Open(z: Sizes, st: Files, p: nat, lookup: int, open: int): Call
    requires Good(z, st, p)
  {
    var f := FirstUnused(st.count);
    var k := FirstFree(st.fd[p], 0);
    if lookup < 0 then Call(st, lookup)
    else if f == z.files then Call(st, -ENFILE)
    else if open < 0 then Call(Deref(Take(st, f), f), open)
    else if k == z.fds then Call(Deref(Take(st, f), f), -EMFILE)
    else Call(SetFd(Take(st, f), p, k, f), k)
  }

  /** sys_close; `close` is what the back end answers if this was the last reference. */
  function Close(z: Sizes, st: Files, p: nat, fd: int, close: int): Call
    requires Good(z, st, p)
  {
    var f := Get(st, p, fd);
    if f == NONE then Call(st, -EBADF)
    else
      SlotIsOpen(z, st, p, fd);
      Call(Deref(SetFd(st, p, fd, NONE), f), if Wrap8(st.count[f] - 1) <= 0 then close else 0)
  }

  /** sys_dup_scan */
  function Dup(z: Sizes, st: Files, p: nat, oldfd: int, newfd: int): Call
    requires Good(z, st, p)
  {
    var f := Get(st, p, oldfd);
    if f == NONE || newfd < 0 || newfd >= z.fds then Call(st, -EBADF)
    else
      SlotIsOpen(z, st, p, oldfd);
      var k := FirstFree(st.fd[p], newfd);
      if k == z.fds then Call(st, -EMFILE)
      else Call(ClearCloexec(SetFd(Ref(st, f), p, k, f), p, k), k)
  }

  /** sys_dup2; the old file of `newfd` is dropped before the slot is overwritten. */
  function Dup2(z: Sizes, st: Files, p: nat, oldfd: int, newfd: int): Call
    requires Good(z, st, p)
  {
    var f := Get(st, p, oldfd);
    if f == NONE || newfd < 0 || newfd >= z.fds then Call(st, -EBADF)
    else if newfd == oldfd then Call(st, newfd)
    else
      SlotIsOpen(z, st, p, oldfd);
      var g := Get(st, p, newfd);
      var st1 := Ref(st, f);
      var st2 := if g == NONE then st1 else (SlotIsOpen(z, st, p, newfd); Deref(st1, g));
      Call(ClearCloexec(SetFd(st2, p, newfd, f), p, newfd), newfd)
  }

  /** The first half of sys_read and sys_write: the call keeps the file open while it blocks. */
  function Begin(z: Sizes, st: Files, p: nat, fd: int, noBuffer: bool): Call
    requires Good(z, st, p)
  {
    var f := Get(st, p, fd);
    if f == NONE then Call(st, -EBADF)
    else if noBuffer then Call(st, -EFAULT)
    else
      SlotIsOpen(z, st, p, fd);
      Call(SetHeld(Ref(st, f), p, f), 0)
  }

  /** The second half of sys_read and sys_write. */
  function End(z: Sizes, st: Files, p: nat): Files
    requires Good(z, st, p) && st.held[p] != NONE
  {
    HeldIsOpen(z, st, p);
    Deref(SetHeld(st, p, NONE), st.held[p])
  }

  // --- Every call keeps the counts ------------------------------------------------------------

  lemma OpenInv(z: Sizes, st: Files, p: nat, lookup: int, open: int)
    requires Good(z, st, p)
    ensures Inv(z, Open(z, st, p, lookup, open).st)
  {
    var f := FirstUnused(st.count);
    var k := FirstFree(st.fd[p], 0);
    if lookup >= 0 && f < z.files {
      TakeInv(z, st, f);
      if open < 0 || k == z.fds {
        DerefInv(z, Take(st, f), f);
      } else {
        SwapFd(z, Take(st, f), p, k, f);
      }
    }
  }

  lemma CloseInv(z: Sizes, st: Files, p: nat, fd: int, close: int)
    requires Good(z, st, p)
    ensures Inv(z, Close(z, st, p, fd, close).st)
  {
    var f := Get(st, p, fd);
    if f != NONE {
      SlotIsOpen(z, st, p, fd);
      SwapFd(z, st, p, fd, NONE);
      DerefInv(z, SetFd(st, p, fd, NONE), f);
    }
  }

  lemma ClearCloexecInv(z: Sizes, st: Files, p: nat, i: nat)
    requires Good(z, st, p) && i < z.fds
    ensures Inv(z, ClearCloexec(st, p, i))
  {
    forall f | 0 <= f < z.files ensures Counted(ClearCloexec(st, p, i), NONE, f) { assert Counted(st, NONE, f); }
  }

  lemma DupInv(z: Sizes, st: Files, p: nat, oldfd: int, newfd: int)
    requires Good(z, st, p)
    ensures Inv(z, Dup(z, st, p, oldfd, newfd).st)
  {
    var f := Get(st, p, oldfd);
    if f != NONE && 0 <= newfd < z.fds {
      SlotIsOpen(z, st, p, oldfd);
      var k := FirstFree(st.fd[p], newfd);
      if k < z.fds {
        RefInv(z, st, f);
        SwapFd(z, Ref(st, f), p, k, f);
        ClearCloexecInv(z, SetFd(Ref(st, f), p, k, f), p, k);
      }
    }
  }

  /** Overwriting the slot before or after dropping its old file is the same. */
  lemma DropCommutes(st: Files, p: nat, i: nat, f: int, g: nat)
    requires p < |st.fd| && i < |st.fd[p]| && g < |st.count| && g < |st.closes|
    ensures SetFd(Deref(st, g), p, i, f) == Deref(SetFd(st, p, i, f), g)
  {
  }

  /** Also when both descriptors already share one file, which then is not closed. */
  lemma Dup2Inv(z: Sizes, st: Files, p: nat, oldfd: int, newfd: int)
    requires Good(z, st, p)
    ensures Inv(z, Dup2(z, st, p, oldfd, newfd).st)
  {
    var f := Get(st, p, oldfd);
    if f != NONE && 0 <= newfd < z.fds && newfd != oldfd {
      SlotIsOpen(z, st, p, oldfd);
      RefInv(z, st, f);
      var st1 := Ref(st, f);
      var g := Get(st, p, newfd);
      SwapFd(z, st1, p, newfd, f);
      if g != NONE {
        SlotIsOpen(z, st, p, newfd);
        DropCommutes(st1, p, newfd, f, g);
        DerefInv(z, SetFd(st1, p, newfd, f), g);
        ClearCloexecInv(z, Deref(SetFd(st1, p, newfd, f), g), p, newfd);
      } else {
        ClearCloexecInv(z, SetFd(st1, p, newfd, f), p, newfd);
      }
    }
  }

  lemma BeginInv(z: Sizes, st: Files, p: nat, fd: int, noBuffer: bool)
    requires Good(z, st, p) && st.held[p] == NONE
    ensures Inv(z, Begin(z, st, p, fd, noBuffer).st)
  {
    var f := Get(st, p, fd);
    if f != NONE {
      SlotIsOpen(z, st, p, fd);
      RefInv(z, st, f);
      SwapHeld(z, Ref(st, f), p, f);
    }
  }

  lemma EndInv(z: Sizes, st: Files, p: nat)
    requires Good(z, st, p) && st.held[p] != NONE
    ensures Inv(z, End(z, st, p))
  {
    HeldIsOpen(z, st, p);
    SwapHeld(z, st, p, NONE);
    DerefInv(z, SetHeld(st, p, NONE), st.held[p]);
  }

  // --- Runs -------------------------------------------------------------------------------------

  datatype Step =
    | DoOpen(p: nat, lookup: int, open: int)
    | DoClose(p: nat, fd: int, close: int)
    | DoDup(p: nat, oldfd: int, newfd: int)
    | DoDup2(p: nat, oldfd: int, newfd: int)
    | DoBegin(p: nat, fd: int, noBuffer: bool)
    | DoEnd(p: nat)

  /** A process that is blocked in a call makes no other call. */
  predicate Enabled(z: Sizes, st: Files, step: Step)
  {
    && Good(z, st, step.p)
    && (step.DoEnd? <==> st.held[step.p] != NONE)
  }

  function Apply(z: Sizes, st: Files, step: Step): Files
    requires Enabled(z, st, step)
  {
    match step
    case DoOpen(p, lookup, open) => Open(z, st, p, lookup, open).st
    case DoClose(p, fd, close) => Close(z, st, p, fd, close).st
    case DoDup(p, oldfd, newfd) => Dup(z, st, p, oldfd, newfd).st
    case DoDup2(p, oldfd, newfd) => Dup2(z, st, p, oldfd, newfd).st
    case DoBegin(p, fd, noBuffer) => Begin(z, st, p, fd, noBuffer).st
    case DoEnd(p) => End(z, st, p)
  }

  lemma ApplyInv(z: Sizes, st: Files, step: Step)
    requires Enabled(z, st, step)
    ensures Inv(z, Apply(z, st, step))
  {
    match step
    case DoOpen(p, lookup, open) => OpenInv(z, st, p, lookup, open);
    case DoClose(p, fd, close) => CloseInv(z, st, p, fd, close);
    case DoDup(p, oldfd, newfd) => DupInv(z, st, p, oldfd, newfd);
    case DoDup2(p, oldfd, newfd) => Dup2Inv(z, st, p, oldfd, newfd);
    case DoBegin(p, fd, noBuffer) => BeginInv(z, st, p, fd, noBuffer);
    case DoEnd(p) => EndInv(z, st, p);
  }

  lemma {:induction false} NoneEverywhere(s: seq<int>, f: nat)
    requires forall i :: 0 <= i < |s| ==> s[i] == NONE
    ensures CountOf(s, f) == 0
  {
    CountIn(s, f);
  }

  lemma {:induction false} NothingOpen(fds: seq<seq<int>>, f: nat)
    requires forall p, i :: 0 <= p < |fds| && 0 <= i < |fds[p]| ==> fds[p][i] == NONE
    ensures Total(fds, f) == 0
  {
    if fds != [] {
      NothingOpen(fds[..|fds| - 1], f);
      NoneEverywhere(fds[|fds| - 1], f);
    }
  }

  lemma InitialInv(z: Sizes)
    requires SmallEnough(z)
    ensures Inv(z, Initial(z))
  {
    var st := Initial(z);
    forall f | 0 <= f < z.files ensures Counted(st, NONE, f) {
      NothingOpen(st.fd, f);
      NoneEverywhere(st.held, f);
    }
  }

  /** Each step is enabled when its turn comes. */
  predicate Legal(z: Sizes, st: Files, steps: seq<Step>)
    requires Inv(z, st)
    decreases |steps|
  {
    steps != [] ==>
      Enabled(z, st, steps[0]) && (ApplyInv(z, st, steps[0]); Legal(z, Apply(z, st, steps[0]), steps[1..]))
  }

  /** The state after a run.  In every reachable state each file's count is the number of
      descriptor slots of all processes and calls in progress that refer to it, and each use
      of a global slot has been closed exactly once, or not yet and is referred to. */
  function Exec(z: Sizes, st: Files, steps: seq<Step>): (end: Files)
    requires Inv(z, st) && Legal(z, st, steps)
    ensures Inv(z, end)
    decreases |steps|
  {
    if steps == [] then st
    else
      ApplyInv(z, st, steps[0]);
      Exec(z, Apply(z, st, steps[0]), steps[1..])
  }

  /** From the empty tables on, every count fits a signed char, no descriptor names a closed
      file, and no call in progress is left without its file. */
  lemma EveryRunIsSafe(z: Sizes, steps: seq<Step>, p: nat, i: nat)
    requires Inv(z, Initial(z)) && Legal(z, Initial(z), steps) && p < z.procs && i < z.fds
    ensures var st := Exec(z, Initial(z), steps);
            && (forall f :: 0 <= f < z.files ==> 0 <= st.count[f] < 127 && st.count[f] == Refs(st, f))
            && (st.fd[p][i] != NONE ==> 0 <= st.fd[p][i] < z.files && st.count[st.fd[p][i]] > 0)
            && (st.held[p] != NONE ==> 0 <= st.held[p] < z.files && st.count[st.held[p]] > 0)
  {
    var st := Exec(z, Initial(z), steps);
    forall f | 0 <= f < z.files ensures 0 <= st.count[f] < 127 && st.count[f] == Refs(st, f) {
      CountFits(z, st, NONE, f);
      assert Counted(st, NONE, f);
    }
    if st.fd[p][i] != NONE { SlotIsOpen(z, st, p, i); }
    if st.held[p] != NONE { HeldIsOpen(z, st, p); }
  }
}
