/**
 File descriptor tables (os/file.c) as a state machine: the global table of open files with
 8-bit signed reference counts, one descriptor table per process, and the reference that a
 read or write in progress holds.  NONE is the NULL pointer.
 */
module FileSpec {

  const NONE: int := -1

  /** opens and closes count, for each global slot, how often it has been taken and closed. */
  datatype Files = Files(count: seq<int>, fd: seq<seq<int>>, cloexec: seq<seq<bool>>, held: seq<int>,
                         opens: seq<nat>, closes: seq<nat>)

  // --- Counting references --------------------------------------------------------------

  function CountOf(s: seq<int>, f: int): (n: nat)
    ensures n <= |s|
  {
    if s == [] then 0 else CountOf(s[..|s| - 1], f) + (if s[|s| - 1] == f then 1 else 0)
  }

  function Total(fds: seq<seq<int>>, f: int): nat
  {
    if fds == [] then 0 else Total(fds[..|fds| - 1], f) + CountOf(fds[|fds| - 1], f)
  }

  /** Descriptor slots of all processes that hold file `f`, and calls in progress on it. */
  function Refs(st: Files, f: int): nat { Total(st.fd, f) + CountOf(st.held, f) }

  function Is(x: int, f: int): nat { if x == f then 1 else 0 }

  lemma {:induction false} CountUpdate(s: seq<int>, i: nat, v: int, f: int)
    requires i < |s|
    ensures CountOf(s[i := v], f) == CountOf(s, f) - Is(s[i], f) + Is(v, f)
  {
    var n := |s| - 1;
    if i < n {
      CountUpdate(s[..n], i, v, f);
      assert s[i := v][..n] == s[..n][i := v];
    } else {
      assert s[i := v][..n] == s[..n];
    }
  }

  lemma {:induction false} TotalUpdate(fds: seq<seq<int>>, p: nat, row: seq<int>, f: int)
    requires p < |fds|
    ensures Total(fds[p := row], f) == Total(fds, f) - CountOf(fds[p], f) + CountOf(row, f)
    ensures CountOf(fds[p], f) <= Total(fds, f)
  {
    var n := |fds| - 1;
    if p < n {
      TotalUpdate(fds[..n], p, row, f);
      assert fds[p := row][..n] == fds[..n][p := row];
    } else {
      assert fds[p := row][..n] == fds[..n];
    }
  }

  lemma {:induction false} CountIn(s: seq<int>, f: int)
    ensures CountOf(s, f) > 0 <==> f in s
  {
    if s != [] {
      CountIn(s[..|s| - 1], f);
      assert s == s[..|s| - 1] + [s[|s| - 1]];
    }
  }

  // --- The invariant ------------------------------------------------------------------------

  /** Sizes of the tables: global files, processes, descriptors of a process. */
  datatype Sizes = Sizes(files: nat, procs: nat, fds: nat)

  /** The condition under which the source makes the count a signed char. */
  predicate SmallEnough(z: Sizes) { z.procs * (z.fds + 2) < 127 }

  predicate Shape(z: Sizes, st: Files)
  {
    && |st.count| == |st.opens| == |st.closes| == z.files
    && |st.fd| == |st.cloexec| == |st.held| == z.procs
    && (forall p :: 0 <= p < z.procs ==> |st.fd[p]| == |st.cloexec[p]| == z.fds)
  }

  predicate ValidFile(z: Sizes, f: int) { f == NONE || 0 <= f < z.files }

  predicate InRange(z: Sizes, st: Files)
    requires Shape(z, st)
  {
    && (forall p, i :: 0 <= p < z.procs && 0 <= i < z.fds ==> ValidFile(z, st.fd[p][i]))
    && (forall p :: 0 <= p < z.procs ==> ValidFile(z, st.held[p]))
  }

  /** Each count is the number of references, plus one for the file `extra` that a call in
      progress holds in a local variable; and every time a slot was taken it has been closed
      exactly once, except for the present use. */
  predicate Counted(st: Files, extra: int, f: nat)
    requires f < |st.count| == |st.opens| == |st.closes|
  {
    && st.count[f] == Refs(st, f) + Is(extra, f)
    && st.opens[f] == st.closes[f] + (if st.count[f] > 0 then 1 else 0)
  }

  predicate InvWith(z: Sizes, st: Files, extra: int)
  {
    && SmallEnough(z) && Shape(z, st) && InRange(z, st) && ValidFile(z, extra)
    && forall f :: 0 <= f < z.files ==> Counted(st, extra, f)
  }

  /** What every state between system calls satisfies. */
  predicate Inv(z: Sizes, st: Files) { InvWith(z, st, NONE) }

  /** file_init, with no process started yet. */
  function Initial(z: Sizes): Files
  {
    Files(seq(z.files, _ => 0), seq(z.procs, _ => seq(z.fds, _ => NONE)), seq(z.procs, _ => seq(z.fds, _ => false)),
          seq(z.procs, _ => NONE), seq(z.files, _ => 0), seq(z.files, _ => 0))
  }

  // --- Primitive operations ---------------------------------------------------------------

  /** A signed char. */
  function Wrap8(x: int): int { (x + 128) % 256 - 128 }

  function Ref(st: Files, f: nat): Files
    requires f < |st.count|
  {
    st.(count := st.count[f := Wrap8(st.count[f] + 1)])
  }

  /** file_deref: closes the file when the count drops to zero. */
  function Deref(st: Files, f: nat): Files
    requires f < |st.count| && f < |st.closes|
  {
    var c := Wrap8(st.count[f] - 1);
    st.(count := st.count[f := c], closes := if c <= 0 then st.closes[f := st.closes[f] + 1] else st.closes)
  }

  /** file_new on slot `f`. */
  function Take(st: Files, f: nat): Files
    requires f < |st.count| && f < |st.opens|
  {
    st.(count := st.count[f := 1], opens := st.opens[f := st.opens[f] + 1])
  }

  function SetFd(st: Files, p: nat, i: nat, f: int): Files
    requires p < |st.fd| && i < |st.fd[p]|
  {
    st.(fd := st.fd[p := st.fd[p][i := f]])
  }

  function SetHeld(st: Files, p: nat, f: int): Files
    requires p < |st.held|
  {
    st.(held := st.held[p := f])
  }

  // --- The 8-bit count is wide enough ---------------------------------------------------------

  lemma {:induction false} TotalBound(fds: seq<seq<int>>, k: nat, f: int)
    requires forall p :: 0 <= p < |fds| ==> |fds[p]| == k
    ensures Total(fds, f) <= |fds| * k
  {
    if fds != [] {
      TotalBound(fds[..|fds| - 1], k, f);
    }
  }

  lemma TableSize(procs: nat, fds: nat)
    ensures procs * (fds + 2) == procs * fds + procs + procs
    ensures procs * (fds + 1) == procs * fds + procs
  {
  }

  /** No count can pass what the source allows for. */
  lemma CountFits(z: Sizes, st: Files, extra: int, f: nat)
    requires InvWith(z, st, extra) && f < z.files && z.procs >= 1
    ensures 0 <= st.count[f] <= z.procs * (z.fds + 1) + 1 < 127
  {
    TotalBound(st.fd, z.fds, f);
    assert Counted(st, extra, f);
    TableSize(z.procs, z.fds);
  }

  // --- What the primitive operations do to the invariant -----------------------------------------

  lemma RefsSetFd(st: Files, p: nat, i: nat, v: int, f: int)
    requires p < |st.fd| && i < |st.fd[p]|
    ensures Refs(SetFd(st, p, i, v), f) == Refs(st, f) - Is(st.fd[p][i], f) + Is(v, f)
  {
    CountUpdate(st.fd[p], i, v, f);
    TotalUpdate(st.fd, p, st.fd[p][i := v], f);
  }

  /** Exchanging the contents of a descriptor slot for the reference in hand. */
  lemma SwapFd(z: Sizes, st: Files, p: nat, i: nat, v: int)
    requires InvWith(z, st, v) && p < z.procs && i < z.fds
    ensures InvWith(z, SetFd(st, p, i, v), st.fd[p][i])
  {
    var st' := SetFd(st, p, i, v);
    forall f | 0 <= f < z.files ensures Counted(st', st.fd[p][i], f) {
      assert Counted(st, v, f);
      RefsSetFd(st, p, i, v, f);
    }
  }

  lemma SwapHeld(z: Sizes, st: Files, p: nat, v: int)
    requires InvWith(z, st, v) && p < z.procs
    ensures InvWith(z, SetHeld(st, p, v), st.held[p])
  {
    var st' := SetHeld(st, p, v);
    forall f | 0 <= f < z.files ensures Counted(st', st.held[p], f) {
      assert Counted(st, v, f);
      CountUpdate(st.held, p, v, f);
    }
  }

  lemma RefInv(z: Sizes, st: Files, f: nat)
    requires Inv(z, st) && f < z.files && z.procs >= 1 && st.count[f] > 0
    ensures InvWith(z, Ref(st, f), f) && Ref(st, f).count[f] == st.count[f] + 1
  {
    var st' := Ref(st, f);
    CountFits(z, st, NONE, f);
    forall g | 0 <= g < z.files ensures Counted(st', f, g) { assert Counted(st, NONE, g); }
  }

  lemma TakeInv(z: Sizes, st: Files, f: nat)
    requires Inv(z, st) && f < z.files && st.count[f] == 0
    ensures InvWith(z, Take(st, f), f)
  {
    var st' := Take(st, f);
    forall g | 0 <= g < z.files ensures Counted(st', f, g) { assert Counted(st, NONE, g); }
  }

  /** Dropping the reference in hand; the file is closed exactly when no slot and no other call
      refers to it any more. */
  lemma DerefInv(z: Sizes, st: Files, f: nat)
    requires InvWith(z, st, f) && f < z.files && z.procs >= 1
    ensures Inv(z, Deref(st, f))
    ensures Deref(st, f).closes == if Refs(st, f) == 0 then st.closes[f := st.closes[f] + 1] else st.closes
  {
    var st' := Deref(st, f);
    CountFits(z, st, f, f);
    assert Counted(st, f, f);
    forall g | 0 <= g < z.files ensures Counted(st', NONE, g) { assert Counted(st, f, g); }
  }

  /** A descriptor never names a closed file. */
  lemma SlotIsOpen(z: Sizes, st: Files, p: nat, i: nat)
    requires Inv(z, st) && p < z.procs && i < z.fds && st.fd[p][i] != NONE
    ensures 0 <= st.fd[p][i] < z.files && st.count[st.fd[p][i]] > 0
  {
    var f := st.fd[p][i];
    assert ValidFile(z, f) && Counted(st, NONE, f);
    CountIn(st.fd[p], f);
    TotalUpdate(st.fd, p, st.fd[p], f);
  }

  lemma HeldIsOpen(z: Sizes, st: Files, p: nat)
    requires Inv(z, st) && p < z.procs && st.held[p] != NONE
    ensures 0 <= st.held[p] < z.files && st.count[st.held[p]] > 0
  {
    var f := st.held[p];
    assert ValidFile(z, f) && Counted(st, NONE, f);
    CountIn(st.held, f);
  }
}
