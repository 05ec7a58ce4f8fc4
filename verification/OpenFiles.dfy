/**
 Open files and inodes together (os/file.c, os/fs/ram/ramfs.c, os/fs/fat/fatfs.c): opening a
 file moves the reference of the lookup into the file, and the last close gives it back.
 */
module OpenFiles {
  import opened Options
  import Fat
  import opened Errno
  import opened FsSpec
  import FileSpec
  import FileCalls
  import FsRuns

  /** The inode of a file, if it has one, and whether it has a FAT information block. */
  datatype OpenFile = OpenFile(inode: Option<nat>, info: bool)

  const CLOSED := OpenFile(None, false)

  /** The descriptor tables, the inodes, and for every global file what it refers to. */
  datatype World = World(files: FileSpec.Files, sys: FsRuns.Sys, open: seq<OpenFile>)

  function RefOf(x: OpenFile): multiset<nat> { if x.inode.Some? then multiset{x.inode.value} else multiset{} }

  /** The references that the files have, with multiplicity. */
  function Holders(open: seq<OpenFile>): multiset<nat>
  {
    if open == [] then multiset{} else Holders(open[..|open| - 1]) + RefOf(open[|open| - 1])
  }

  function Infos(open: seq<OpenFile>): nat
  {
    if open == [] then 0 else Infos(open[..|open| - 1]) + (if open[|open| - 1].info then 1 else 0)
  }

  lemma SwapOne(all: multiset<nat>, out: multiset<nat>, into: multiset<nat>, more: multiset<nat>)
    requires out <= all
    ensures out <= all + more && all - out + into + more == all + more - out + into
  {
  }

  lemma SwapLast(all: multiset<nat>, out: multiset<nat>, into: multiset<nat>)
    ensures out <= all + out && all + into == all + out - out + into
  {
  }

  lemma {:induction false} HoldersUpdate(open: seq<OpenFile>, f: nat, x: OpenFile)
    requires f < |open|
    ensures RefOf(open[f]) <= Holders(open)
    ensures Holders(open[f := x]) == Holders(open) - RefOf(open[f]) + RefOf(x)
    decreases |open|
  {
    hide RefOf;
    var n := |open| - 1;
    if f < n {
      HoldersUpdate(open[..n], f, x);
      assert open[f := x][..n] == open[..n][f := x];
      SwapOne(Holders(open[..n]), RefOf(open[f]), RefOf(x), RefOf(open[n]));
    } else {
      assert open[f := x][..n] == open[..n];
      SwapLast(Holders(open[..n]), RefOf(open[n]), RefOf(x));
    }
  }

  lemma {:induction false} InfosUpdate(open: seq<OpenFile>, f: nat, x: OpenFile)
    requires f < |open|
    ensures open[f].info ==> Infos(open) >= 1
    ensures Infos(open[f := x]) == Infos(open) - (if open[f].info then 1 else 0) + (if x.info then 1 else 0)
    decreases |open|
  {
    var n := |open| - 1;
    if f < n {
      InfosUpdate(open[..n], f, x);
      assert open[f := x][..n] == open[..n][f := x];
    } else {
      assert open[f := x][..n] == open[..n];
    }
  }

  lemma {:induction false} HoldersSize(open: seq<OpenFile>)
    ensures |Holders(open)| <= |open|
  {
    if open != [] {
      HoldersSize(open[..|open| - 1]);
    }
  }

  lemma {:induction false} HolderIsFile(open: seq<OpenFile>, f: nat)
    requires f < |open| && open[f].inode.Some?
    ensures open[f].inode.value in Holders(open)
  {
    HoldersUpdate(open, f, CLOSED);
  }

  // --- The invariant ------------------------------------------------------------------------

  predicate Sane(s: FsRuns.Sys) { FsRuns.Inv(s.st, s.held, s.up) }

  /** The references held and the buffers lent are those of the files. */
  predicate Balanced(s: FsRuns.Sys, open: seq<OpenFile>)
  {
    Sane(s) && s.held == Holders(open) && s.lent == Infos(open)
  }

  predicate Inv(z: FileSpec.Sizes, w: World)
  {
    && FileSpec.Inv(z, w.files) && Balanced(w.sys, w.open) && |w.open| == z.files == |w.files.count|
    && forall f :: 0 <= f < z.files && w.files.count[f] == 0 ==> w.open[f] == CLOSED
  }

  // --- Closing --------------------------------------------------------------------------------

  /** The close handlers: the information block goes back first, then file_close_default gives
      the reference to the inode back. */
  function CloseFile(s: FsRuns.Sys, x: OpenFile): FsRuns.Sys
  {
    var s1 := if x.info && s.lent > 0 then s.(st := SetFree(s.st, s.st.free + 1), lent := s.lent - 1) else s;
    if x.inode.Some? && x.inode.value in s.st.inodes
    then s1.(st := Unref(s1.st, x.inode.value), held := s1.held - multiset{x.inode.value})
    else s1
  }

  /** What each handler gives back is there to be given. */
  lemma CloseSane(s: FsRuns.Sys, x: OpenFile)
    requires Sane(s) && RefOf(x) <= s.held && (x.info ==> s.lent >= 1)
    ensures var s' := CloseFile(s, x);
            Sane(s') && s'.held == s.held - RefOf(x) && s'.lent == s.lent - if x.info then 1 else 0
  {
    hide FsRuns.Inv;
    hide Unref;
    var s1 := if x.info then s.(st := SetFree(s.st, s.st.free + 1), lent := s.lent - 1) else s;
    FsRuns.FreeInv(s.st, s.held, s.up, s.st.free + 1);
    if x.inode.Some? {
      assert x.inode.value in RefOf(x);
      FsRuns.UnrefInv(s1.st, s1.held, s1.up, x.inode.value);
    }
  }

  lemma CloseBalanced(s: FsRuns.Sys, open: seq<OpenFile>, f: nat)
    requires Balanced(s, open) && f < |open|
    ensures Balanced(CloseFile(s, open[f]), open[f := CLOSED])
  {
    hide FsRuns.Inv;
    hide CloseFile;
    hide Holders;
    hide Infos;
    HoldersUpdate(open, f, CLOSED);
    InfosUpdate(open, f, CLOSED);
    CloseSane(s, open[f]);
  }

  /** Closes the files among the first `k` that nothing refers to any more. */
  function Sweep(s: FsRuns.Sys, open: seq<OpenFile>, count: seq<int>, k: nat): FsRuns.Sys
    requires |count| == |open| && k <= |open|
  {
    if k == 0 then s
    else
      var r := Sweep(s, open, count, k - 1);
      if count[k - 1] != 0 then r else CloseFile(r, open[k - 1])
  }

  function Swept(open: seq<OpenFile>, count: seq<int>, k: nat): seq<OpenFile>
    requires |count| == |open| && k <= |open|
  {
    seq(|open|, f requires 0 <= f < |open| => if f < k && count[f] == 0 then CLOSED else open[f])
  }

  lemma {:induction false} SweepBalanced(s: FsRuns.Sys, open: seq<OpenFile>, count: seq<int>, k: nat)
    requires Balanced(s, open) && |count| == |open| && k <= |open|
    ensures Balanced(Sweep(s, open, count, k), Swept(open, count, k))
  {
    hide Balanced;
    hide CloseFile;
    if k == 0 {
      assert Swept(open, count, k) == open;
    } else {
      SweepBalanced(s, open, count, k - 1);
      if count[k - 1] == 0 {
        CloseBalanced(Sweep(s, open, count, k - 1), Swept(open, count, k - 1), k - 1);
        assert Swept(open, count, k) == Swept(open, count, k - 1)[k - 1 := CLOSED];
      } else {
        assert Swept(open, count, k) == Swept(open, count, k - 1);
      }
    }
  }

  // --- Opening --------------------------------------------------------------------------------

  /** What the devices answer: the result of a character device's open, whether the card is gone,
      and whether the file's first cluster is not one of the volume. */
  datatype Media = Media(device: int, noCard: bool, badCluster: bool)

  datatype Opened = Opened(sys: FsRuns.Sys, file: OpenFile, result: int)

  /** fatfs_open of the inode `m`. */
  function FatOpen(s: FsRuns.Sys, m: nat, media: Media): (r: Opened)
    requires Sane(s) && m in s.st.inodes
    ensures Sane(r.sys) && r.sys.held == s.held && r.file.inode == Some(m)
    ensures r.sys.lent == s.lent + if r.file.info then 1 else 0
  {
    hide FsRuns.Inv;
    hide FsRuns.Apply;
    var n := s.st.inodes[m];
    var atRoot := n.info.Some? && n.info.value.0 == Fat.END_CLUSTER;
    if !IsDir(n.mode) && FileType(n.mode) != 8 then Opened(s, OpenFile(Some(m), false), -EPERM)
    else if IsDir(n.mode) && atRoot && media.noCard then Opened(s, OpenFile(Some(m), false), -EIO)
    else if s.st.free < 1 then Opened(s, OpenFile(Some(m), false), -ENOMEM)
    else if media.badCluster then Opened(s, OpenFile(Some(m), false), -EIO)
    else
      FsRuns.StepEffect(s, FsRuns.TakeBuffer);
      Opened(FsRuns.Apply(s, FsRuns.TakeBuffer), OpenFile(Some(m), true), 0)
  }

  /** ramfs_open or fatfs_open of the inode `q` that the lookup returned. */
  function BackEnd(s: FsRuns.Sys, q: nat, media: Media): (r: Opened)
    requires Sane(s) && q in s.held
    ensures Sane(r.sys) && r.sys.held == s.held - multiset{q} + RefOf(r.file)
    ensures r.sys.lent == s.lent + if r.file.info then 1 else 0
  {
    hide FsRuns.Inv;
    hide FsRuns.Apply;
    hide FileType;
    HeldIsInode(s, q);
    TakeAndPut(s.held, q);
    var n := s.st.inodes[q];
    if n.op.FatFs? then FatOpen(s, q, media)
    else if IsDir(n.mode) && Mounted(n.mode) then
      ExchangeFacts(s, q);
      FatOpen(FsRuns.Apply(s, FsRuns.Exchange(q)), n.mount.value, media)
    else if IsDir(n.mode) || FileType(n.mode) == 8 then Opened(s, OpenFile(Some(q), false), 0)
    else if FileType(n.mode) == 2 then
      FsRuns.StepEffect(s, FsRuns.Close(q));
      Opened(FsRuns.Apply(s, FsRuns.Close(q)), CLOSED, media.device)
    else Opened(s, OpenFile(Some(q), false), -EACCES)
  }

  lemma HeldIsInode(s: FsRuns.Sys, q: nat)
    requires Sane(s) && q in s.held
    ensures q in s.st.inodes
  {
    FsRuns.LastReference(s.st, s.held, s.up, q);
  }

  lemma TakeAndPut(held: multiset<nat>, q: nat)
    requires q in held
    ensures held - multiset{q} + multiset{q} == held
  {
  }

  lemma ExchangeFacts(s: FsRuns.Sys, q: nat)
    requires Sane(s) && q in s.held && OnRam(s.st, Ram(q)) && Mounted(s.st.inodes[q].mode)
    ensures s.st.inodes[q].mount.Some?
    ensures var s', m := FsRuns.Apply(s, FsRuns.Exchange(q)), s.st.inodes[q].mount.value;
            && Sane(s') && m in s'.st.inodes && s'.held == s.held - multiset{q} + multiset{m} && s'.lent == s.lent
  {
    hide FsRuns.Inv;
    hide FsRuns.Apply;
    FsRuns.StepEffect(s, FsRuns.Exchange(q));
    var s', m := FsRuns.Apply(s, FsRuns.Exchange(q)), s.st.inodes[q].mount.value;
    assert s.held + multiset{m} - multiset{q} == s.held - multiset{q} + multiset{m};
    HeldIsInode(s', m);
  }

  /** A path and how it is opened. */
  datatype Request = Request(comps: seq<string>, oflag: nat, mode: Mode, mtime: nat, disk: Disk, p: nat, media: Media)

  function Lookup(r: Request): FsRuns.Step { FsRuns.Open(r.comps, r.oflag, r.mode, r.mtime, r.disk, r.p) }

  /** file_open by process `pid`. */
  function Open(z: FileSpec.Sizes, w: World, pid: nat, r: Request): (w': World)
    requires Inv(z, w) && pid < z.procs && FsRuns.Enabled(w.sys, Lookup(r))
    ensures Inv(z, w')
  {
    hide FsRuns.Inv;
    hide FsRuns.Apply;
    hide FsRuns.Enabled;
    hide FileSpec.InvWith;
    hide FileCalls.Open;
    hide Decide;
    hide Holders;
    hide Infos;
    hide RefOf;
    hide BackEnd;
    hide Settle;
    var f := FileCalls.FirstUnused(w.files.count);
    LookupFacts(w.sys, r);
    var d := Decide(w.sys.st, r.disk, r.comps, r.oflag, r.mode);
    if d.Fail? then w
    else
      var s1 := FsRuns.Apply(w.sys, Lookup(r));
      var q := if d.Create? then r.p else FsRuns.Held(d.node, r.p);
      if f == z.files then GiveBack(w.sys, s1, q); w.(sys := FsRuns.Apply(s1, FsRuns.Close(q)))
      else
        var o := BackEnd(s1, q, r.media);
        var files := FileCalls.Open(z, w.files, pid, 0, o.result).st;
        FileCalls.OpenInv(z, w.files, pid, 0, o.result);
        CountLength(z, files);
        HoldersUpdate(w.open, f, o.file);
        InfosUpdate(w.open, f, o.file);
        ClosedHasNone();
        NewHolder(w.sys.held, s1.held, o.sys.held, q, RefOf(o.file));
        Settle(z, files, o.sys, w.open[f := o.file])
  }

  /** After the descriptor tables have changed, the files without references are closed. */
  function Settle(z: FileSpec.Sizes, files: FileSpec.Files, s: FsRuns.Sys, open: seq<OpenFile>): (w: World)
    requires FileSpec.Inv(z, files) && Balanced(s, open) && |open| == z.files == |files.count|
    ensures Inv(z, w)
  {
    hide FileSpec.Inv;
    hide Balanced;
    SweepBalanced(s, open, files.count, z.files);
    World(files, Sweep(s, open, files.count, z.files), Swept(open, files.count, z.files))
  }

  lemma CountLength(z: FileSpec.Sizes, files: FileSpec.Files)
    requires FileSpec.Inv(z, files)
    ensures |files.count| == z.files
  {
  }

  lemma ClosedHasNone()
    ensures RefOf(CLOSED) == multiset{}
  {
  }

  lemma NewHolder(held: multiset<nat>, held1: multiset<nat>, held2: multiset<nat>, q: nat, x: multiset<nat>)
    requires held1 == held + multiset{q} && held2 == held1 - multiset{q} + x
    ensures held2 == held + x
  {
    assert held1 - multiset{q} == held;
  }

  lemma GiveBack(s: FsRuns.Sys, s1: FsRuns.Sys, q: nat)
    requires Sane(s1) && s1.held == s.held + multiset{q} && s1.lent == s.lent
    ensures FsRuns.Enabled(s1, FsRuns.Close(q))
    ensures var s2 := FsRuns.Apply(s1, FsRuns.Close(q)); Sane(s2) && s2.held == s.held && s2.lent == s.lent
  {
    hide FsRuns.Inv;
    hide FsRuns.Apply;
    assert s1.held - multiset{q} == s.held;
    FsRuns.StepEffect(s1, FsRuns.Close(q));
  }

  lemma LookupFacts(s: FsRuns.Sys, r: Request)
    requires Sane(s) && FsRuns.Enabled(s, Lookup(r))
    ensures Sound(s.st)
    ensures var d := Decide(s.st, r.disk, r.comps, r.oflag, r.mode);
            var s1 := FsRuns.Apply(s, Lookup(r));
            && Sane(s1) && s1.lent == s.lent
            && (d.Existing? ==> s1.held == s.held + multiset{FsRuns.Held(d.node, r.p)})
            && (d.Create? ==> s1.held == s.held + multiset{r.p})
  {
    hide FsRuns.Linked;
    hide FsRuns.Counted;
    hide Sound;
    hide Decide;
  }

  // --- Runs -----------------------------------------------------------------------------------

  /** Opening; any other call on descriptors; and calls on paths that keep no reference. */
  datatype Step =
    | OpenPath(pid: nat, request: Request)
    | OnFiles(step: FileCalls.Step)
    | OnPaths(steps: seq<FsRuns.Step>)

  ghost predicate Enabled(z: FileSpec.Sizes, w: World, step: Step)
    requires Inv(z, w)
  {
    match step
    case OpenPath(pid, r) => pid < z.procs && w.files.held[pid] == FileSpec.NONE && FsRuns.Enabled(w.sys, Lookup(r))
    case OnFiles(s) => !s.DoOpen? && FileCalls.Enabled(z, w.files, s)
    case OnPaths(steps) =>
      && FsRuns.Legal(w.sys, steps)
      && FsRuns.Exec(w.sys, steps).held == w.sys.held && FsRuns.Exec(w.sys, steps).lent == w.sys.lent
  }

  ghost function Apply(z: FileSpec.Sizes, w: World, step: Step): (w': World)
    requires Inv(z, w) && Enabled(z, w, step)
    ensures Inv(z, w')
  {
    match step
    case OpenPath(pid, r) => Open(z, w, pid, r)
    case OnFiles(s) =>
      FileCalls.ApplyInv(z, w.files, s);
      CountLength(z, FileCalls.Apply(z, w.files, s));
      Settle(z, FileCalls.Apply(z, w.files, s), w.sys, w.open)
    case OnPaths(steps) => w.(sys := FsRuns.Exec(w.sys, steps))
  }

  ghost predicate Legal(z: FileSpec.Sizes, w: World, steps: seq<Step>)
    requires Inv(z, w)
    decreases |steps|
  {
    steps == [] || (Enabled(z, w, steps[0]) && Legal(z, Apply(z, w, steps[0]), steps[1..]))
  }

  ghost function Exec(z: FileSpec.Sizes, w: World, steps: seq<Step>): (w': World)
    requires Inv(z, w) && Legal(z, w, steps)
    ensures Inv(z, w')
    decreases |steps|
  {
    if steps == [] then w else Exec(z, Apply(z, w, steps[0]), steps[1..])
  }

  /** In every reachable state the references to inodes beyond directory entries and mounts are
      exactly those of the open files.  So the inode of an open file exists, a file that is not
      in use has none, and no count passes what a short holds. */
  lemma EveryRunBalances(z: FileSpec.Sizes, w: World, steps: seq<Step>, i: nat, f: nat)
    requires Inv(z, w) && Legal(z, w, steps) && z.files <= 32764
    ensures var e := Exec(z, w, steps);
            && (i in e.sys.st.inodes ==>
                  e.sys.st.inodes[i].count == FsRuns.Own(e.sys.st, e.sys.up, i) + Holders(e.open)[i] <= 32767)
            && (f < z.files ==>
                  && f < |e.open| && f < |e.files.count|
                  && (e.open[f].inode.Some? ==> e.open[f].inode.value in e.sys.st.inodes && e.files.count[f] > 0))
  {
    var e := Exec(z, w, steps);
    InodeCount(z, e, i);
    if f < z.files && e.open[f].inode.Some? {
      FileHasInode(z, e, f);
    }
    hide FsRuns.Inv;
    hide FileSpec.InvWith;
  }

  lemma InodeCount(z: FileSpec.Sizes, e: World, i: nat)
    requires Inv(z, e) && z.files <= 32764
    ensures i in e.sys.st.inodes ==>
              e.sys.st.inodes[i].count == FsRuns.Own(e.sys.st, e.sys.up, i) + Holders(e.open)[i] <= 32767
  {
    hide FsRuns.Linked;
    hide Sound;
    hide FileSpec.InvWith;
    HoldersSize(e.open);
    Multiplicity(Holders(e.open), i);
  }

  lemma FileHasInode(z: FileSpec.Sizes, e: World, f: nat)
    requires Inv(z, e) && f < z.files && e.open[f].inode.Some?
    ensures e.open[f].inode.value in e.sys.st.inodes && e.files.count[f] > 0
  {
    hide FsRuns.Inv;
    hide FileSpec.InvWith;
    HolderIsFile(e.open, f);
    HeldIsInode(e.sys, e.open[f].inode.value);
    CountIsNatural(z, e.files, f);
  }

  lemma CountIsNatural(z: FileSpec.Sizes, files: FileSpec.Files, f: nat)
    requires FileSpec.Inv(z, files) && f < z.files
    ensures f < |files.count| && files.count[f] >= 0
  {
    assert FileSpec.Counted(files, FileSpec.NONE, f);
  }

  lemma Multiplicity(m: multiset<nat>, i: nat)
    ensures m[i] <= |m|
  {
    assert m == m[i := 0] + multiset{}[i := m[i]];
  }

  /** The state after initialisation: no file is open and only the root is there. */
  lemma BootInv(z: FileSpec.Sizes, root: nat, mode: Mode, mtime: nat, buffers: nat)
    requires FileSpec.SmallEnough(z) && buffers >= 1 && IsDir(mode) && !Mounted(mode)
    ensures Inv(z, World(FileSpec.Initial(z), FsRuns.Boot(root, mode, mtime, buffers), seq(z.files, _ => CLOSED)))
  {
    FileCalls.InitialInv(z);
    FsRuns.EveryRunCounts(root, mode, mtime, buffers, [], root);
    AllClosed(z.files);
  }

  lemma {:induction false} AllClosed(n: nat)
    ensures Holders(seq(n, _ => CLOSED)) == multiset{} && Infos(seq(n, _ => CLOSED)) == 0
  {
    if n > 0 {
      AllClosed(n - 1);
      assert seq(n, _ => CLOSED)[..n - 1] == seq(n - 1, _ => CLOSED);
    }
  }
}
