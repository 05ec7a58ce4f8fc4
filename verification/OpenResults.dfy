/**
 What opening a path answers and leaves behind (os/file.c, os/fs/ram/ramfs.c,
 os/fs/fat/fatfs.c), by the type of the inode that the lookup found.
 */
module OpenResults {
  import opened Options
  import opened Errno
  import opened FsSpec
  import opened OpenFiles
  import FileEffects

  // --- The back ends ---------------------------------------------------------------------------

  /** A file of the volume opens exactly when it is a directory or a regular file, the card is
      there if it is the root, a buffer is left and its cluster is one of the volume; then it has
      that buffer.  Otherwise nothing changes, and the first thing amiss is the error. */
  lemma VolumeOpens(s: FsRuns.Sys, m: nat, media: Media)
    requires Sane(s) && m in s.st.inodes && s.st.inodes[m].info.Some?
    ensures var o := FatOpen(s, m, media);
            var kind, cluster := s.st.inodes[m].mode / 0x1000, s.st.inodes[m].info.value.0;
            && o.result == (if kind != 4 && kind != 8 then -EPERM
                            else if kind == 4 && cluster == 0x0FFF_FFF8 && media.noCard then -EIO
                            else if s.st.free == 0 then -ENOMEM
                            else if media.badCluster then -EIO else 0)
            && o.file.inode == Some(m) && (o.file.info <==> o.result == 0)
            && o.sys.st.inodes == s.st.inodes && o.sys.st.free == s.st.free - (if o.result == 0 then 1 else 0)
  {
    hide FsRuns.Inv;
  }

  /** An inode of the RAM filesystem, by its type.  A directory and a regular file stay with the
      file; a device gives its reference up and answers for itself; nothing else can be opened. */
  lemma RamOpens(s: FsRuns.Sys, q: nat, media: Media)
    requires Sane(s) && q in s.held && q in s.st.inodes && s.st.inodes[q].op.RamFs?
    ensures var o := BackEnd(s, q, media);
            var mode := s.st.inodes[q].mode;
            && ((mode / 0x1000 == 4 && !Mounted(mode)) || mode / 0x1000 == 8 ==>
                  o == Opened(s, OpenFile(Some(q), false), 0))
            && (mode / 0x1000 == 2 ==>
                  o.result == media.device && o.file == CLOSED && o.sys.held == s.held - multiset{q})
            && (mode / 0x1000 !in {2, 4, 8} ==> o == Opened(s, OpenFile(Some(q), false), -EACCES))
  {
    hide FsRuns.Inv;
    assert s.held - multiset{q} + multiset{} == s.held - multiset{q};
  }

  /** A mount point opens as the root of the volume that is mounted on it. */
  lemma MountPointOpens(s: FsRuns.Sys, q: nat, media: Media)
    requires Sane(s) && q in s.held && q in s.st.inodes && s.st.inodes[q].op.RamFs?
    requires IsDir(s.st.inodes[q].mode) && Mounted(s.st.inodes[q].mode)
    ensures s.st.inodes[q].mount.Some?
    ensures var o := BackEnd(s, q, media);
            o.file.inode == s.st.inodes[q].mount && (o.file.info <==> o.result == 0)
  {
    hide FsRuns.Inv;
    hide FsRuns.Apply;
    ExchangeFacts(s, q);
    OpenInfo(FsRuns.Apply(s, FsRuns.Exchange(q)), s.st.inodes[q].mount.value, media);
    hide FatOpen;
  }

  lemma OpenInfo(s: FsRuns.Sys, m: nat, media: Media)
    requires Sane(s) && m in s.st.inodes
    ensures var o := FatOpen(s, m, media); o.file.inode == Some(m) && (o.file.info <==> o.result == 0)
  {
    hide FsRuns.Inv;
  }

  // --- The whole open -----------------------------------------------------------------------------

  /** Files that are not in use have nothing to give back. */
  lemma {:induction false} NothingToSweep(s: FsRuns.Sys, open: seq<OpenFile>, count: seq<int>, k: nat)
    requires |count| == |open| && k <= |open|
    requires forall f :: 0 <= f < |open| && count[f] == 0 ==> open[f] == CLOSED
    ensures Sweep(s, open, count, k) == s && Swept(open, count, k) == open
  {
    if k > 0 {
      NothingToSweep(s, open, count, k - 1);
    }
    assert forall f :: 0 <= f < |open| ==> Swept(open, count, k)[f] == open[f];
  }

  /** The lookup of a request that is not refused: the state with its reference, and the inode. */
  function Looked(s: FsRuns.Sys, r: Request): (FsRuns.Sys, nat)
    requires Sane(s) && FsRuns.Enabled(s, Lookup(r)) && Sound(s.st)
    requires !Decide(s.st, r.disk, r.comps, r.oflag, r.mode).Fail?
  {
    var d := Decide(s.st, r.disk, r.comps, r.oflag, r.mode);
    (FsRuns.Apply(s, Lookup(r)), if d.Create? then r.p else FsRuns.Held(d.node, r.p))
  }

  ghost predicate CanOpen(z: FileSpec.Sizes, w: World, pid: nat, r: Request)
  {
    && Inv(z, w) && pid < z.procs && FsRuns.Enabled(w.sys, Lookup(r))
    && (LookupFacts(w.sys, r); !Decide(w.sys.st, r.disk, r.comps, r.oflag, r.mode).Fail?)
  }

  /** What the back end makes of it. */
  ghost function Backed(z: FileSpec.Sizes, w: World, pid: nat, r: Request): Opened
    requires CanOpen(z, w, pid, r)
  {
    hide FsRuns.Inv;
    hide FsRuns.Apply;
    hide Decide;
    LookupFacts(w.sys, r);
    var (s1, q) := Looked(w.sys, r);
    BackEnd(s1, q, r.media)
  }

  /** A successful open puts the lowest unused file into the lowest free descriptor; that file is
      what the back end made of the inode, and no other file or descriptor changes. */
  lemma OpenSucceeds(z: FileSpec.Sizes, w: World, pid: nat, r: Request, f: nat, k: nat)
    requires CanOpen(z, w, pid, r) && Backed(z, w, pid, r).result >= 0 && f < z.files && k < z.fds
    requires w.files.count[f] == 0 && forall j :: 0 <= j < f ==> w.files.count[j] != 0
    requires w.files.fd[pid][k] == FileSpec.NONE && forall j :: 0 <= j < k ==> w.files.fd[pid][j] != FileSpec.NONE
    ensures var w', o := Open(z, w, pid, r), Backed(z, w, pid, r);
            && w'.sys == o.sys && w'.open == w.open[f := o.file]
            && FileEffects.OneChanged(w.files.fd, w'.files.fd, pid, k) && w'.files.fd[pid][k] == f
            && FileEffects.CountsMove(w.files, w'.files, f, FileSpec.NONE)
  {
    hide FsRuns.Inv;
    hide FsRuns.Apply;
    hide FsRuns.Enabled;
    hide Decide;
    hide BackEnd;
    hide Sweep;
    hide Swept;
    LookupFacts(w.sys, r);
    var o := Backed(z, w, pid, r);
    var files := FileCalls.Open(z, w.files, pid, 0, o.result).st;
    FileEffects.OpenEffect(z, w.files, pid, 0, o.result, f, k);
    assert FileCalls.FirstUnused(w.files.count) == f;
    NothingToSweep(o.sys, w.open[f := o.file], files.count, z.files);
    hide FileCalls.Open;
    hide FileSpec.InvWith;
  }

  /** An open that is refused, by the lookup, the back end or for lack of a file or a descriptor,
      leaves every file and descriptor, and every reference and buffer, as they were. */
  lemma OpenFails(z: FileSpec.Sizes, w: World, pid: nat, r: Request)
    requires Inv(z, w) && pid < z.procs && FsRuns.Enabled(w.sys, Lookup(r))
    requires CanOpen(z, w, pid, r) ==>
               0 !in w.files.count || FileSpec.NONE !in w.files.fd[pid] || Backed(z, w, pid, r).result < 0
    ensures var w' := Open(z, w, pid, r);
            && w'.open == w.open && w'.files.fd == w.files.fd && w'.files.count == w.files.count
            && w'.sys.held == w.sys.held && w'.sys.lent == w.sys.lent
  {
    hide FsRuns.Inv;
    hide FsRuns.Apply;
    hide FsRuns.Enabled;
    hide Decide;
    hide BackEnd;
    hide Sweep;
    hide Swept;
    hide Holders;
    hide Infos;
    LookupFacts(w.sys, r);
    var w' := Open(z, w, pid, r);
    if CanOpen(z, w, pid, r) && 0 in w.files.count {
      var o := Backed(z, w, pid, r);
      var f := FileCalls.FirstUnused(w.files.count);
      var files := FileCalls.Open(z, w.files, pid, 0, o.result).st;
      FileEffects.OpenRefused(z, w.files, pid, 0, o.result);
      hide FileCalls.Open;
      SweptBack(w.open, f, o.file, w.files.count);
    }
  }

  /** A file that is put into an unused slot and swept out again. */
  lemma SweptBack(open: seq<OpenFile>, f: nat, x: OpenFile, count: seq<int>)
    requires |count| == |open| && f < |open| && count[f] == 0
    requires forall g :: 0 <= g < |open| && count[g] == 0 ==> open[g] == CLOSED
    ensures Swept(open[f := x], count, |open|) == open
  {
    assert forall g :: 0 <= g < |open| ==> Swept(open[f := x], count, |open|)[g] == open[g];
  }

  /** Closing a descriptor closes its file exactly when nothing else refers to it; then the file's
      inode and buffer are given back, and no other file changes. */
  lemma CloseGivesBack(z: FileSpec.Sizes, w: World, pid: nat, fd: nat, close: int)
    requires Inv(z, w) && pid < z.procs && fd < z.fds && w.files.held[pid] == FileSpec.NONE
    requires w.files.fd[pid][fd] != FileSpec.NONE
    ensures 0 <= w.files.fd[pid][fd] < z.files
    ensures Enabled(z, w, OnFiles(FileCalls.DoClose(pid, fd, close)))
    ensures var w' := Apply(z, w, OnFiles(FileCalls.DoClose(pid, fd, close)));
            var f := w.files.fd[pid][fd];
            if FileSpec.Refs(w.files, f) == 1 then
              && w'.open == w.open[f := CLOSED] && w'.sys.held == w.sys.held - RefOf(w.open[f])
              && w'.sys.lent == w.sys.lent - if w.open[f].info then 1 else 0
            else w'.open == w.open && w'.sys == w.sys
  {
    hide FsRuns.Inv;
    hide Sweep;
    hide Holders;
    hide Infos;
    var f := w.files.fd[pid][fd];
    FileEffects.SlotCounts(z, w.files, pid, fd);
    FileEffects.CloseEffect(z, w.files, pid, fd, close);
    assert FileSpec.Counted(w.files, FileSpec.NONE, f);
    var files := FileCalls.Close(z, w.files, pid, fd, close).st;
    var w' := Apply(z, w, OnFiles(FileCalls.DoClose(pid, fd, close)));
    hide FileCalls.Close;
    if files.count[f] == 0 {
      assert w'.open == Swept(w.open, files.count, z.files) == w.open[f := CLOSED];
      HoldersUpdate(w.open, f, CLOSED);
      InfosUpdate(w.open, f, CLOSED);
      ClosedHasNone();
    } else {
      NothingToSweep(w.sys, w.open, files.count, z.files);
    }
  }
}
