/**
 os/file.c as it runs: the scanning loops over the global table and over the descriptor table
 of the current process, and the count updates in their order in the source.  Every call is
 proved to do what its function in FileCalls says.
 */
module FileTable {
  import opened Errno
  import opened Queues
  import opened FileSpec
  import opened FileCalls

  class FileTable {
    const z: Sizes
    var count: seq<int>
    var fd: seq<seq<int>>
    var cloexec: seq<seq<bool>>
    var held: seq<int>
    ghost var opens: seq<nat>
    ghost var closes: seq<nat>
    var current: nat

    ghost function View(): Files
      reads this
    {
      Files(count, fd, cloexec, held, opens, closes)
    }

    ghost predicate Valid()
      reads this
    {
      Inv(z, View()) && current < z.procs
    }

    constructor (z: Sizes, current: nat)
      requires SmallEnough(z) && current < z.procs
      ensures Valid() && View() == Initial(z) && this.z == z && this.current == current
    {
      this.z := z;
      this.current := current;
      count := seq(z.files, _ => 0);
      fd := seq(z.procs, _ => seq(z.fds, _ => NONE));
      cloexec := seq(z.procs, _ => seq(z.fds, _ => false));
      held := seq(z.procs, _ => NONE);
      opens := seq(z.files, _ => 0);
      closes := seq(z.files, _ => 0);
      new;
      InitialInv(z);
    }

    // --- Helpers of the source -----------------------------------------------------------

    method FileRef(f: nat)
      requires f < |count|
      modifies this`count
      ensures View() == Ref(old(View()), f)
    {
      count := count[f := Wrap8(count[f] + 1)];
    }

    method FileDeref(f: nat, close: int) returns (r: int)
      requires f < |count| && f < |closes|
      modifies this`count, this`closes
      ensures View() == Deref(old(View()), f)
      ensures r == if Wrap8(old(count)[f] - 1) <= 0 then close else 0
    {
      count := count[f := Wrap8(count[f] - 1)];
      r := 0;
      if count[f] <= 0 {
        closes := closes[f := closes[f] + 1];
        r := close;
      }
    }

    method FileGet(i: int) returns (f: int)
      requires current < |fd|
      ensures f == Get(View(), current, i)
    {
      if i < 0 || i >= |fd[current]| {
        return NONE;
      }
      f := fd[current][i];
    }

    /** Puts the file into the lowest free descriptor of the current process. */
    method FilePut(f: int) returns (r: int)
      requires current < |fd|
      modifies this`fd
      ensures var k := FirstFree(old(fd)[current], 0);
              if k == |old(fd)[current]| then r == -EMFILE && View() == old(View())
              else r == k && View() == SetFd(old(View()), current, k, f)
    {
      var i := 0;
      while i < |fd[current]|
        invariant i <= |fd[current]| && fd == old(fd)
        invariant FirstFree(fd[current], 0) == FirstFree(fd[current], i)
      {
        if fd[current][i] == NONE {
          fd := fd[current := fd[current][i := f]];
          return i;
        }
        i := i + 1;
      }
      r := -EMFILE;
    }

    /** Takes the lowest unused slot of the global table. */
    method FileNew() returns (f: int)
      requires |count| == |opens|
      modifies this`count, this`opens
      ensures var k := FirstUnused(old(count));
              if k == |old(count)| then f == NONE && View() == old(View())
              else f == k && View() == Take(old(View()), k)
    {
      var i := 0;
      while i < |count|
        invariant i <= |count| && count == old(count) && opens == old(opens)
        invariant FirstUnused(count) == FirstIndex(count, 0, i)
      {
        if count[i] == 0 {
          count := count[i := 1];
          opens := opens[i := opens[i] + 1];
          return i;
        }
        i := i + 1;
      }
      f := NONE;
    }

    // --- System calls ------------------------------------------------------------------------

    /** file_open, with the answers of the path lookup and of the filesystem's open. */
    method FileOpen(lookup: int, open: int) returns (r: int)
      requires Valid()
      modifies this`count, this`fd, this`opens, this`closes
      ensures Valid() && Call(View(), r) == Open(z, old(View()), current, lookup, open)
    {
      OpenInv(z, View(), current, lookup, open);
      if lookup < 0 {
        return lookup;
      }
      var f := FileNew();
      if f == NONE {
        return -ENFILE;
      }
      if open < 0 {
        var _ := FileDeref(f, 0);
        return open;
      }
      r := FilePut(f);
      if r < 0 {
        var _ := FileDeref(f, 0);
      }
    }

    method SysClose(i: int, close: int) returns (r: int)
      requires Valid()
      modifies this`count, this`fd, this`closes
      ensures Valid() && Call(View(), r) == Close(z, old(View()), current, i, close)
    {
      CloseInv(z, View(), current, i, close);
      var f := FileGet(i);
      if f == NONE {
        return -EBADF;
      }
      SlotIsOpen(z, View(), current, i);
      fd := fd[current := fd[current][i := NONE]];
      r := FileDeref(f, close);
    }

    method SysDupScan(oldfd: int, newfd: int) returns (r: int)
      requires Valid()
      modifies this`count, this`fd, this`cloexec
      ensures Valid() && Call(View(), r) == Dup(z, old(View()), current, oldfd, newfd)
    {
      DupInv(z, View(), current, oldfd, newfd);
      var f := FileGet(oldfd);
      if f == NONE || newfd < 0 || newfd >= z.fds {
        return -EBADF;
      }
      SlotIsOpen(z, View(), current, oldfd);
      var i := newfd;
      while i < z.fds
        invariant newfd <= i <= z.fds && View() == old(View())
        invariant FirstFree(fd[current], newfd) == FirstFree(fd[current], i)
      {
        if fd[current][i] == NONE {
          FileRef(f);
          fd := fd[current := fd[current][i := f]];
          cloexec := cloexec[current := cloexec[current][i := false]];
          return i;
        }
        i := i + 1;
      }
      r := -EMFILE;
    }

    method SysDup2(oldfd: int, newfd: int) returns (r: int)
      requires Valid()
      modifies this`count, this`fd, this`cloexec, this`closes
      ensures Valid() && Call(View(), r) == Dup2(z, old(View()), current, oldfd, newfd)
    {
      Dup2Inv(z, View(), current, oldfd, newfd);
      var f := FileGet(oldfd);
      if f == NONE || newfd < 0 || newfd >= z.fds {
        return -EBADF;
      }
      if newfd == oldfd {
        return newfd;
      }
      SlotIsOpen(z, View(), current, oldfd);
      var g := FileGet(newfd);
      if g != NONE { SlotIsOpen(z, View(), current, newfd); }
      hide Inv;
      FileRef(f);
      if g != NONE {
        var _ := FileDeref(g, 0);
      }
      fd := fd[current := fd[current][newfd := f]];
      cloexec := cloexec[current := cloexec[current][newfd := false]];
      r := newfd;
    }

    /** sys_read or sys_write up to the point where the back end may block. */
    method BeginCall(i: int, noBuffer: bool) returns (r: int)
      requires Valid() && held[current] == NONE
      modifies this`count, this`held
      ensures Valid() && Call(View(), r) == Begin(z, old(View()), current, i, noBuffer)
    {
      BeginInv(z, View(), current, i, noBuffer);
      var f := FileGet(i);
      if f == NONE {
        return -EBADF;
      }
      if noBuffer {
        return -EFAULT;
      }
      SlotIsOpen(z, View(), current, i);
      FileRef(f);
      held := held[current := f];
      r := 0;
    }

    /** The rest of the call: the reference is dropped again. */
    method EndCall()
      requires Valid() && held[current] != NONE
      modifies this`count, this`held, this`closes
      ensures Valid() && View() == End(z, old(View()), current)
    {
      EndInv(z, View(), current);
      HeldIsOpen(z, View(), current);
      var f := held[current];
      held := held[current := NONE];
      var _ := FileDeref(f, 0);
    }
  }
}
