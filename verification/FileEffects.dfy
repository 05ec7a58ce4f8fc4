/**
 What the calls on descriptors do (os/file.c), told by the tables before and after: which slot
 comes to name which file, what each count does, which files are closed, and that nothing else
 changes.
 */
module FileEffects {
  import opened Errno
  import opened FileSpec
  import opened FileCalls

  // --- What changes and what stays ----------------------------------------------------------

  /** Only descriptor `i` of process `p` changes, in these tables of the same shape. */
  predicate OneChanged<T(==)>(was: seq<seq<T>>, now: seq<seq<T>>, p: nat, i: nat)
  {
    && |now| == |was|
    && (forall q :: 0 <= q < |was| ==> |now[q]| == |was[q]|)
    && (forall q, k :: 0 <= q < |was| && 0 <= k < |was[q]| && !(q == p && k == i) ==> now[q][k] == was[q][k])
  }

  /** File `up` gains a reference and file `down` loses one, where NONE is no file, and a file is
      closed exactly when its count comes to zero. */
  predicate Moves(count: seq<int>, closes: seq<nat>, count': seq<int>, closes': seq<nat>, up: int, down: int)
  {
    && |count| == |closes| == |count'| == |closes'|
    && forall f :: 0 <= f < |count| ==>
         && count'[f] == count[f] + Is(up, f) - Is(down, f)
         && closes'[f] == closes[f] + if count[f] > 0 && count'[f] == 0 then 1 else 0
  }

  predicate CountsMove(st: Files, st': Files, up: int, down: int)
  {
    Moves(st.count, st.closes, st'.count, st'.closes, up, down)
  }

  lemma {:induction false} Wraps(x: int)
    ensures 0 <= x < 127 ==> Wrap8(x + 1) == x + 1
    ensures 0 < x <= 127 ==> Wrap8(x - 1) == x - 1
  {
  }

  lemma RefMoves(st: Files, f: nat)
    requires f < |st.count| == |st.closes| && 0 < st.count[f] < 127
    ensures CountsMove(st, Ref(st, f), f, NONE)
  {
    Wraps(st.count[f]);
    hide Wrap8;
  }

  lemma DerefMoves(st: Files, g: nat)
    requires g < |st.count| == |st.closes| && 0 < st.count[g] <= 127
    ensures CountsMove(st, Deref(st, g), NONE, g)
  {
    Wraps(st.count[g]);
    hide Wrap8;
  }

  /** One reference more and one less; nothing moves, and nothing is closed, where both are to
      the same file. */
  lemma BothMove(st: Files, f: nat, g: nat)
    requires f < |st.count| == |st.closes| && g < |st.count| && 0 < st.count[f] < 127 && 0 < st.count[g] < 127
    ensures CountsMove(st, Deref(Ref(st, f), g), f, g)
  {
    Wraps(st.count[f]);
    RefMoves(st, f);
    var st1 := Ref(st, f);
    DerefMoves(st1, g);
    hide Wrap8;
  }

  lemma SlotCounts(z: Sizes, st: Files, p: nat, i: nat)
    requires Good(z, st, p) && i < z.fds && st.fd[p][i] != NONE
    ensures 0 <= st.fd[p][i] < z.files && 0 < st.count[st.fd[p][i]] < 127
  {
    SlotIsOpen(z, st, p, i);
    CountFits(z, st, NONE, st.fd[p][i]);
  }

  /** A slot set, and its flag cleared. */
  lemma SlotSet(st: Files, p: nat, i: nat, f: int)
    requires p < |st.fd| && i < |st.fd[p]| && p < |st.cloexec| && i < |st.cloexec[p]|
    ensures var st' := ClearCloexec(SetFd(st, p, i, f), p, i);
            && OneChanged(st.fd, st'.fd, p, i) && st'.fd[p][i] == f
            && OneChanged(st.cloexec, st'.cloexec, p, i) && !st'.cloexec[p][i]
            && st' == st.(fd := st'.fd, cloexec := st'.cloexec)
  {
  }

  // --- dup2 and dup ---------------------------------------------------------------------------

  /** After dup2 both descriptors name the file of the old one; the file that the new one named
      has one reference less and is closed if that was its last. */
  lemma Dup2Effect(z: Sizes, st: Files, p: nat, oldfd: nat, newfd: nat)
    requires Good(z, st, p) && oldfd < z.fds && newfd < z.fds && st.fd[p][oldfd] != NONE && newfd != oldfd
    ensures var c := Dup2(z, st, p, oldfd, newfd);
            && c.result == newfd && c.st.held == st.held && c.st.opens == st.opens
            && OneChanged(st.fd, c.st.fd, p, newfd) && c.st.fd[p][newfd] == c.st.fd[p][oldfd] == st.fd[p][oldfd]
            && OneChanged(st.cloexec, c.st.cloexec, p, newfd) && !c.st.cloexec[p][newfd]
            && CountsMove(st, c.st, st.fd[p][oldfd], st.fd[p][newfd])
  {
    hide Wrap8;
    hide InRange;
    hide Counted;
    var f, g := st.fd[p][oldfd], st.fd[p][newfd];
    SlotCounts(z, st, p, oldfd);
    if g == NONE {
      RefMoves(st, f);
      SlotSet(Ref(st, f), p, newfd, f);
    } else {
      SlotCounts(z, st, p, newfd);
      BothMove(st, f, g);
      SlotSet(Deref(Ref(st, f), g), p, newfd, f);
    }
  }

  /** The new descriptor is the lowest free one from `newfd` on, and names the file of the old one. */
  lemma DupEffect(z: Sizes, st: Files, p: nat, oldfd: nat, newfd: nat, k: nat)
    requires Good(z, st, p) && oldfd < z.fds && newfd <= k < z.fds && st.fd[p][oldfd] != NONE
    requires st.fd[p][k] == NONE && forall j :: newfd <= j < k ==> st.fd[p][j] != NONE
    ensures var c := Dup(z, st, p, oldfd, newfd);
            && c.result == k && c.st.held == st.held && c.st.opens == st.opens
            && OneChanged(st.fd, c.st.fd, p, k) && c.st.fd[p][k] == st.fd[p][oldfd]
            && OneChanged(st.cloexec, c.st.cloexec, p, k) && !c.st.cloexec[p][k]
            && CountsMove(st, c.st, st.fd[p][oldfd], NONE)
  {
    hide Wrap8;
    hide InRange;
    hide Counted;
    var f := st.fd[p][oldfd];
    SlotCounts(z, st, p, oldfd);
    RefMoves(st, f);
    assert FirstFree(st.fd[p], newfd) == k;
    SlotSet(Ref(st, f), p, k, f);
  }

  /** What dup and dup2 refuse, and the one dup2 that has nothing to do. */
  lemma DupRefused(z: Sizes, st: Files, p: nat, oldfd: int, newfd: int)
    requires Good(z, st, p)
    ensures !(0 <= oldfd < z.fds && st.fd[p][oldfd] != NONE) || !(0 <= newfd < z.fds) ==>
              Dup(z, st, p, oldfd, newfd) == Dup2(z, st, p, oldfd, newfd) == Call(st, -EBADF)
    ensures 0 <= oldfd < z.fds && st.fd[p][oldfd] != NONE ==> Dup2(z, st, p, oldfd, oldfd) == Call(st, oldfd)
    ensures 0 <= oldfd < z.fds && st.fd[p][oldfd] != NONE && 0 <= newfd < z.fds
            && (forall j :: newfd <= j < z.fds ==> st.fd[p][j] != NONE) ==>
              Dup(z, st, p, oldfd, newfd) == Call(st, -EMFILE)
  {
    hide Wrap8;
    hide InRange;
    hide Counted;
  }

  // --- close ------------------------------------------------------------------------------------

  /** The slot is empty, and the file is closed, with the answer of its back end, exactly if no
      other slot and no call in progress refers to it. */
  lemma CloseEffect(z: Sizes, st: Files, p: nat, fd: nat, close: int)
    requires Good(z, st, p) && fd < z.fds && st.fd[p][fd] != NONE
    ensures var c := Close(z, st, p, fd, close);
            && c.result == (if Refs(st, st.fd[p][fd]) == 1 then close else 0)
            && OneChanged(st.fd, c.st.fd, p, fd) && c.st.fd[p][fd] == NONE
            && c.st.cloexec == st.cloexec && c.st.held == st.held && c.st.opens == st.opens
            && CountsMove(st, c.st, NONE, st.fd[p][fd])
  {
    hide Wrap8;
    var f := st.fd[p][fd];
    SlotCounts(z, st, p, fd);
    assert Counted(st, NONE, f);
    hide InRange;
    hide Counted;
    Wraps(st.count[f]);
    DerefMoves(SetFd(st, p, fd, NONE), f);
  }

  lemma CloseRefused(z: Sizes, st: Files, p: nat, fd: int, close: int)
    requires Good(z, st, p) && !(0 <= fd < z.fds && st.fd[p][fd] != NONE)
    ensures Close(z, st, p, fd, close) == Call(st, -EBADF)
  {
    hide Wrap8;
    hide InRange;
    hide Counted;
  }

  // --- open ---------------------------------------------------------------------------------------

  /** The lowest free descriptor comes to name the lowest unused file, with one reference; the
      slot's close-on-exec flag stays as it was. */
  lemma OpenEffect(z: Sizes, st: Files, p: nat, lookup: nat, open: nat, f: nat, k: nat)
    requires Good(z, st, p) && f < z.files && k < z.fds
    requires st.count[f] == 0 && forall j :: 0 <= j < f ==> st.count[j] != 0
    requires st.fd[p][k] == NONE && forall j :: 0 <= j < k ==> st.fd[p][j] != NONE
    ensures var c := Open(z, st, p, lookup, open);
            && c.result == k && c.st.held == st.held && c.st.cloexec == st.cloexec && c.st.closes == st.closes
            && OneChanged(st.fd, c.st.fd, p, k) && c.st.fd[p][k] == f
            && c.st.opens == st.opens[f := st.opens[f] + 1] && CountsMove(st, c.st, f, NONE)
  {
    hide Wrap8;
    hide InRange;
    hide Counted;
    assert FirstUnused(st.count) == f && FirstFree(st.fd[p], 0) == k;
  }

  /** An open that fails leaves all descriptors, flags and counts; a file that had been taken for
      it has been closed again. */
  lemma OpenRefused(z: Sizes, st: Files, p: nat, lookup: int, open: int)
    requires Good(z, st, p)
    requires lookup < 0 || open < 0 || NONE !in st.fd[p] || 0 !in st.count
    ensures var c := Open(z, st, p, lookup, open);
            && c.result == (if lookup < 0 then lookup else if 0 !in st.count then -ENFILE
                            else if open < 0 then open else -EMFILE)
            && c.st.fd == st.fd && c.st.cloexec == st.cloexec && c.st.held == st.held && c.st.count == st.count
            && (lookup < 0 || 0 !in st.count ==> c.st == st)
            && (lookup >= 0 && 0 in st.count ==>
                  forall f :: 0 <= f < z.files ==>
                    var taken := if st.count[f] == 0 && (forall j :: 0 <= j < f ==> st.count[j] != 0) then 1 else 0;
                    c.st.opens[f] == st.opens[f] + taken && c.st.closes[f] == st.closes[f] + taken)
  {
    hide InRange;
    hide Counted;
    var f := FirstUnused(st.count);
    assert f < z.files <==> 0 in st.count;
    assert Wrap8(0) == 0;
    hide Wrap8;
  }

  // --- read and write -------------------------------------------------------------------------------

  /** A call in progress refers to the file of the descriptor, beside the descriptor. */
  lemma BeginEffect(z: Sizes, st: Files, p: nat, fd: nat)
    requires Good(z, st, p) && fd < z.fds && st.fd[p][fd] != NONE
    ensures var c := Begin(z, st, p, fd, false);
            && c.result == 0 && c.st.fd == st.fd && c.st.cloexec == st.cloexec && c.st.opens == st.opens
            && c.st.held == st.held[p := st.fd[p][fd]] && CountsMove(st, c.st, st.fd[p][fd], NONE)
  {
    hide Wrap8;
    hide InRange;
    hide Counted;
    SlotCounts(z, st, p, fd);
    RefMoves(st, st.fd[p][fd]);
  }

  lemma BeginRefused(z: Sizes, st: Files, p: nat, fd: int, noBuffer: bool)
    requires Good(z, st, p)
    ensures !(0 <= fd < z.fds && st.fd[p][fd] != NONE) ==> Begin(z, st, p, fd, noBuffer) == Call(st, -EBADF)
    ensures 0 <= fd < z.fds && st.fd[p][fd] != NONE ==> Begin(z, st, p, fd, true) == Call(st, -EFAULT)
  {
    hide Wrap8;
    hide InRange;
    hide Counted;
  }

  /** The end of the call gives that reference back, and closes the file if it was the last. */
  lemma EndEffect(z: Sizes, st: Files, p: nat)
    requires Good(z, st, p) && st.held[p] != NONE
    ensures var st' := End(z, st, p);
            && st'.fd == st.fd && st'.cloexec == st.cloexec && st'.opens == st.opens
            && st'.held == st.held[p := NONE] && CountsMove(st, st', NONE, st.held[p])
  {
    hide Wrap8;
    hide InRange;
    hide Counted;
    HeldIsOpen(z, st, p);
    CountFits(z, st, NONE, st.held[p]);
    DerefMoves(SetHeld(st, p, NONE), st.held[p]);
  }
}
