/**
 The tree over whole runs, and what mount points do to the uniqueness of names.
 */
module FsTreeRuns {
  import opened Options
  import opened Errno
  import opened FsSpec
  import opened FsRuns
  import opened FsTree

  /** Changes of counts and devices leave the tree alone. */
  lemma SameTree(st: State, st': State, t: Names)
    requires Tree(st, t) && st'.root == st.root && st'.inodes.Keys == st.inodes.Keys && Sound(st')
    requires forall i :: i in st.inodes ==> SameNode(st.inodes[i], st'.inodes[i])
    ensures Tree(st', t)
  {
    hide Sound;
    hide UniqueNames;
    hide EntriesMatch;
    forall i | i in st'.inodes ensures NodeOk(st', t, i) {
      assert NodeOk(st, t, i) && SameNode(st.inodes[i], st'.inodes[i]);
    }
    forall p | p in t.at ensures PathOk(st', t, p) {
      assert PathOk(st, t, p);
      if p != [] {
        assert SameNode(st.inodes[t.at[Up(p)]], st'.inodes[t.at[Up(p)]]);
      }
    }
  }

  predicate SameNode(n: INode, m: INode) { n.op == m.op && n.mode == m.mode && n.entries == m.entries }

  lemma UnrefTree(s: Sys, t: Names, i: nat)
    requires Inv(s.st, s.held, s.up) && Tree(s.st, t) && i in s.held
    ensures i in s.st.inodes && Tree(Unref(s.st, i), t)
  {
    hide Sound;
    hide Linked;
    hide Counted;
    assert i in s.st.inodes by { LastReference(s.st, s.held, s.up, i); }
    assert s.st.inodes[i].op.RamFs? by { assert NodeOk(s.st, t, i); }
    hide Tree;
    UnrefInv(s.st, s.held, s.up, i);
    SameTree(s.st, Unref(s.st, i), t);
  }

  /** Neither a mount nor a step that needs one. */
  predicate NoMount(step: Step) { !step.MountSd? && !step.Exchange? }

  function NamesAfter(s: Sys, t: Names, step: Step): Names
    requires Inv(s.st, s.held, s.up)
  {
    if step.Open? && Decide(s.st, step.disk, step.comps, step.oflag, step.mode).Create? then Bind(t, step.comps, step.p)
    else t
  }

  lemma TreeStep(s: Sys, t: Names, step: Step)
    requires Inv(s.st, s.held, s.up) && Tree(s.st, t) && Enabled(s, step) && NoMount(step)
    ensures Tree(Apply(s, step).st, NamesAfter(s, t, step))
  {
    hide Tree;
    hide Sound;
    hide Linked;
    hide Counted;
    hide Decide;
    match step
    case Open(comps, oflag, mode, mtime, disk, p) => OpenTree(s, t, step);
    case Close(i) => UnrefTree(s, t, i);
    case SetDevice(i, device) =>
      LastReference(s.st, s.held, s.up, i);
      DeviceInv(s.st, s.held, s.up, i, device);
      SameTree(s.st, WithDevice(s.st, i, device), t);
    case TakeBuffer =>
      FreeInv(s.st, s.held, s.up, s.st.free - 1);
      SameTree(s.st, SetFree(s.st, s.st.free - 1), t);
    case GiveBuffer =>
      FreeInv(s.st, s.held, s.up, s.st.free + 1);
      SameTree(s.st, SetFree(s.st, s.st.free + 1), t);
    case _ =>
  }

  lemma OpenTree(s: Sys, t: Names, step: Step)
    requires Inv(s.st, s.held, s.up) && Tree(s.st, t) && Enabled(s, step) && step.Open?
    ensures Tree(Apply(s, step).st, NamesAfter(s, t, step))
  {
    hide Tree;
    hide Sound;
    hide Linked;
    hide Counted;
    hide Decide;
    var d := Decide(s.st, step.disk, step.comps, step.oflag, step.mode);
    CreateIsTree(s.st, step.disk, t, step.comps, step.oflag, step.mode, step.mtime, step.p, 2);
    if d.Existing? {
      ExistingCanHold(s.st, step.disk, step.comps, step.oflag, step.mode, step.p);
      WithSound(s.st, d.node, Held(d.node, step.p));
      SameTree(s.st, With(s.st, d.node, Held(d.node, step.p)), t);
    }
  }

  ghost predicate NoMounts(steps: seq<Step>) { forall k :: 0 <= k < |steps| ==> NoMount(steps[k]) }

  ghost function NamesExec(s: Sys, t: Names, steps: seq<Step>): Names
    requires Inv(s.st, s.held, s.up) && Legal(s, steps)
    decreases |steps|
  {
    hide Inv;
    if steps == [] then t
    else NamesExec(Apply(s, steps[0]), NamesAfter(s, t, steps[0]), steps[1..])
  }

  lemma {:induction false} RunKeepsTree(s: Sys, t: Names, steps: seq<Step>)
    requires Inv(s.st, s.held, s.up) && Legal(s, steps) && Tree(s.st, t) && NoMounts(steps)
    ensures Tree(Exec(s, steps).st, NamesExec(s, t, steps))
    decreases |steps|
  {
    hide Tree;
    hide Inv;
    if steps != [] {
      TreeStep(s, t, steps[0]);
      RunKeepsTree(Apply(s, steps[0]), NamesAfter(s, t, steps[0]), steps[1..]);
    }
  }

  /** In every state that a run without mounts can reach, the directories are a tree with good
      names, no two alike in a directory. */
  lemma EveryRunIsTree(root: nat, mode: Mode, mtime: nat, buffers: nat, steps: seq<Step>)
    requires buffers >= 1 && IsDir(mode) && !Mounted(mode) && NoMounts(steps)
    ensures var b := Boot(root, mode, mtime, buffers); Inv(b.st, b.held, b.up)
    ensures var b := Boot(root, mode, mtime, buffers); Legal(b, steps) ==> exists t :: Tree(Exec(b, steps).st, t)
  {
    var b := Boot(root, mode, mtime, buffers);
    EveryRunCounts(root, mode, mtime, buffers, steps, root);
    var t := Names(map[[] := root], map[root := []]);
    assert Tree(b.st, t);
    if Legal(b, steps) {
      RunKeepsTree(b, t, steps);
    }
  }

  // --- Working directories --------------------------------------------------------------------

  /** The path is bound to a directory. */
  predicate IsDirAt(st: State, t: Names, p: Path)
  {
    p in t.at && t.at[p] in st.inodes && IsDir(st.inodes[t.at[p]].mode)
  }

  /** What sys_chdir accepts is a directory of the tree. */
  lemma ChdirFindsDir(st: State, disk: Disk, t: Names, comps: Path, oflag: nat, mode: Mode)
    requires Tree(st, t) && IsDir(mode)
    ensures Sound(st) && (Decide(st, disk, comps, oflag, mode).Existing? ==> IsDirAt(st, t, comps))
  {
    hide Tree;
    hide Sound;
    hide Walk;
    hide Passable;
    hide Access;
    LookupIsTree(st, disk, t, comps);
    if Decide(st, disk, comps, oflag, mode).Existing? {
      InodeInTree(st, t, comps);
    }
  }

  /** No step takes a directory away or makes something else of it. */
  lemma StepKeepsDir(s: Sys, t: Names, step: Step, p: Path)
    requires Inv(s.st, s.held, s.up) && Tree(s.st, t) && Enabled(s, step) && NoMount(step) && IsDirAt(s.st, t, p)
    ensures IsDirAt(Apply(s, step).st, NamesAfter(s, t, step), p)
  {
    hide Tree;
    hide Sound;
    hide Linked;
    hide Counted;
    hide FileType;
    match step
    case Open(comps, oflag, mode, mtime, disk, ino) =>
      CreateIsTree(s.st, disk, t, comps, oflag, mode, mtime, ino, 2);
      ExistingCanHold(s.st, disk, comps, oflag, mode, ino);
      hide Decide;
    case Close(i) =>
      UnrefInv(s.st, s.held, s.up, i);
      InodeInTree(s.st, t, p);
    case SetDevice(i, device) =>
    case TakeBuffer =>
    case GiveBuffer =>
    case _ =>
  }

  /** So a path that names a directory, as every working directory after a successful chdir
      does, names one in every state that a run without mounts reaches from there. */
  lemma {:induction false} WorkingDirectoryStays(s: Sys, t: Names, steps: seq<Step>, p: Path)
    requires Inv(s.st, s.held, s.up) && Legal(s, steps) && Tree(s.st, t) && NoMounts(steps) && IsDirAt(s.st, t, p)
    ensures Tree(Exec(s, steps).st, NamesExec(s, t, steps)) && IsDirAt(Exec(s, steps).st, NamesExec(s, t, steps), p)
    decreases |steps|
  {
    hide Tree;
    hide Inv;
    hide IsDirAt;
    if steps != [] {
      TreeStep(s, t, steps[0]);
      StepKeepsDir(s, t, steps[0], p);
      WorkingDirectoryStays(Apply(s, steps[0]), NamesAfter(s, t, steps[0]), steps[1..], p);
    }
  }

  // --- Mount points ----------------------------------------------------------------------

  lemma {:induction false} MissingName(st: State, disk: Disk, node: Node, comps: seq<string>)
    requires Sound(st) && OnRam(st, node)
    ensures var r := Walk(st, disk, node, comps);
            r.NoEntry? ==> ChildOf(st, disk, r.dir, r.name) == Error(-ENOENT)
    decreases |comps|
  {
    if comps != [] && IsDir(ModeOf(st, node)) {
      var c := ChildOf(st, disk, node, comps[0]);
      if c.Child? {
        MissingName(st, disk, c.node, comps[1..]);
      }
    }
  }

  /** Creating a name keeps the names of its directory unique exactly when the directory is
      not a mount point that already hides an entry of that name. */
  lemma CreateKeepsUniqueIff(st: State, disk: Disk, comps: seq<string>, oflag: nat, mode: Mode, mtime: nat, p: nat)
    requires Sound(st) && p !in st.inodes
    ensures var d := Decide(st, disk, comps, oflag, mode);
            d.Create? ==>
              var n := st.inodes[d.dir];
              UniqueNames(n.entries) ==>
                (UniqueNames(AddChild(st, d.dir, d.name, p, mode, mtime, 1).inodes[d.dir].entries) <==>
                   !(Mounted(n.mode) && FindEntry(n.entries, d.name).Some?))
  {
    hide Walk;
    hide Access;
    hide Sound;
    hide UniqueNames;
    RootIsInode(st);
    var d := Decide(st, disk, comps, oflag, mode);
    MissingName(st, disk, Ram(st.root), comps);
    if d.Create? && UniqueNames(st.inodes[d.dir].entries) {
      UniqueAppended(st.inodes[d.dir].entries, Entry(d.name, p));
    }
  }

  lemma UniqueAppended(entries: seq<Entry>, e: Entry)
    requires UniqueNames(entries)
    ensures UniqueNames(entries + [e]) <==> FindEntry(entries, e.name).None?
  {
    var k := FindEntry(entries, e.name);
    if k.Some? {
      assert (entries + [e])[k.value].name == (entries + [e])[|entries|].name;
    }
  }

  // --- Two entries of one name ---------------------------------------------------------------

  const DIR_MODE: Mode := 0x41FF

  /** A directory that can be searched and written. */
  predicate OpenDir(st: State, i: nat)
  {
    && OnRam(st, Ram(i)) && IsDir(st.inodes[i].mode)
    && Access(st.inodes[i].mode, X_OK) == 0 && Access(st.inodes[i].mode, W_OK) == 0
  }

  /** Creating a name in the root. */
  lemma CreateInRoot(st: State, disk: Disk, name: string, mode: Mode)
    requires Sound(st) && OpenDir(st, st.root) && st.free >= 2 && |name| <= RAMFS_MAX_NAME
    requires ChildOf(st, disk, Ram(st.root), name) == Error(-ENOENT)
    ensures Decide(st, disk, [name], O_CREAT_EXCL, mode) == Create(st.root, name)
  {
    hide Sound;
    hide ChildOf;
    hide Access;
    assert Walk(st, disk, Ram(st.root), [name]) == NoEntry(Ram(st.root), name);
  }

  /** Creating a name in a directory of the root. */
  lemma CreateBelow(st: State, disk: Disk, dir: string, i: nat, name: string, mode: Mode)
    requires Sound(st) && OpenDir(st, st.root) && OpenDir(st, i) && st.free >= 2 && |name| <= RAMFS_MAX_NAME
    requires ChildOf(st, disk, Ram(st.root), dir) == Child(Ram(i))
    requires ChildOf(st, disk, Ram(i), name) == Error(-ENOENT)
    ensures Decide(st, disk, [dir, name], O_CREAT_EXCL, mode) == Create(i, name)
  {
    hide Sound;
    hide ChildOf;
    hide Access;
    assert [dir, name][1..] == [name];
    assert Walk(st, disk, Ram(i), [name]) == NoEntry(Ram(i), name);
  }

  /** A volume on which nothing is found. */
  function EmptyDisk(): Disk { (_, _) => Missing(ENOENT) }

  function MakeDir(comps: seq<string>, p: nat): Step { Open(comps, O_CREAT_EXCL, DIR_MODE, 0, EmptyDisk(), p) }

  /** mkdir /m, mkdir /m/a, a mount on /m, and mkdir /m/a again. */
  function SampleRun(): seq<Step>
  {
    [MakeDir(["m"], 1), MakeDir(["m", "a"], 2), MountSd(1, 0, 3), MakeDir(["m", "a"], 5)]
  }

  lemma FourSteps(s: Sys, a: Step, b: Step, c: Step, d: Step)
    requires Inv(s.st, s.held, s.up) && Enabled(s, a) && Enabled(Apply(s, a), b)
    requires Enabled(Apply(Apply(s, a), b), c) && Enabled(Apply(Apply(Apply(s, a), b), c), d)
    ensures Legal(s, [a, b, c, d])
    ensures Exec(s, [a, b, c, d]) == Apply(Apply(Apply(Apply(s, a), b), c), d)
  {
    hide Inv;
    hide Enabled;
    hide Apply;
    hide Exec;
    var s1 := Apply(s, a);
    var s2 := Apply(s1, b);
    var s3 := Apply(s2, c);
    NoSteps(Apply(s3, d));
    OneStep(s3, d, []);
    OneStep(s2, c, [d]);
    OneStep(s1, b, [c, d]);
    OneStep(s, a, [b, c, d]);
    assert [d] + [] == [d] && [c] + [d] == [c, d] && [b] + [c, d] == [b, c, d] && [a] + [b, c, d] == [a, b, c, d];
  }

  lemma NoSteps(s: Sys)
    requires Inv(s.st, s.held, s.up)
    ensures Legal(s, []) && Exec(s, []) == s
  {
    hide Inv;
  }

  lemma OneStep(s: Sys, step: Step, rest: seq<Step>)
    requires Inv(s.st, s.held, s.up) && Enabled(s, step) && Legal(Apply(s, step), rest)
    ensures Legal(s, [step] + rest) && Exec(s, [step] + rest) == Exec(Apply(s, step), rest)
  {
    hide Inv;
    hide Enabled;
    hide Apply;
    assert ([step] + rest)[1..] == rest;
  }

  /** Nothing hinders this run, and it ends with two entries "a" in /m. */
  lemma DuplicateUnderMount()
    ensures var b := Boot(0, 0x41FD, 0, 100);
            && Inv(b.st, b.held, b.up) && Legal(b, SampleRun())
            && 1 in Exec(b, SampleRun()).st.inodes
            && Exec(b, SampleRun()).st.inodes[1].entries == [Entry("a", 2), Entry("a", 5)]
  {
    var b := Boot(0, 0x41FD, 0, 100);
    EveryRunCounts(0, 0x41FD, 0, 100, [], 0);
    var s1 := FirstDir(b);
    var s2 := SecondDir(s1);
    var s3 := Covered(s2);
    var s4 := HiddenDir(s3);
    FourSteps(b, MakeDir(["m"], 1), MakeDir(["m", "a"], 2), MountSd(1, 0, 3), MakeDir(["m", "a"], 5));
  }

  lemma FirstDir(b: Sys) returns (s: Sys)
    requires b == Boot(0, 0x41FD, 0, 100) && Inv(b.st, b.held, b.up)
    ensures Enabled(b, MakeDir(["m"], 1)) && s == Apply(b, MakeDir(["m"], 1))
    ensures s.st.inodes.Keys == {0, 1} && s.st.root == 0 && s.st.free == 97 && s.held == multiset{1}
    ensures s.st.inodes[0] == INode(RamFs, 3, 0x41FD, 0, 0, [Entry("m", 1)], None, None)
    ensures s.st.inodes[1] == INode(RamFs, 2, DIR_MODE, 0, 0, [], None, None)
  {
    hide Sound;
    hide Linked;
    hide Counted;
    hide Walk;
    CreateInRoot(b.st, EmptyDisk(), "m", DIR_MODE);
    hide Decide;
    s := Apply(b, MakeDir(["m"], 1));
  }

  lemma SecondDir(s1: Sys) returns (s: Sys)
    requires Inv(s1.st, s1.held, s1.up)
    requires s1.st.inodes.Keys == {0, 1} && s1.st.root == 0 && s1.st.free == 97 && s1.held == multiset{1}
    requires s1.st.inodes[0] == INode(RamFs, 3, 0x41FD, 0, 0, [Entry("m", 1)], None, None)
    requires s1.st.inodes[1] == INode(RamFs, 2, DIR_MODE, 0, 0, [], None, None)
    ensures Enabled(s1, MakeDir(["m", "a"], 2)) && s == Apply(s1, MakeDir(["m", "a"], 2))
    ensures s.st.inodes.Keys == {0, 1, 2} && s.st.root == 0 && s.st.free == 95 && 1 in s.held
    ensures s.st.inodes[0] == s1.st.inodes[0]
    ensures s.st.inodes[1] == INode(RamFs, 2, DIR_MODE, 0, 0, [Entry("a", 2)], None, None)
  {
    hide Sound;
    hide Linked;
    hide Counted;
    hide Walk;
    assert FindEntry([Entry("m", 1)], "m") == Some(0);
    CreateBelow(s1.st, EmptyDisk(), "m", 1, "a", DIR_MODE);
    hide Decide;
    s := Apply(s1, MakeDir(["m", "a"], 2));
  }

  lemma Covered(s2: Sys) returns (s: Sys)
    requires Inv(s2.st, s2.held, s2.up)
    requires s2.st.inodes.Keys == {0, 1, 2} && s2.st.root == 0 && s2.st.free == 95 && 1 in s2.held
    requires s2.st.inodes[0] == INode(RamFs, 3, 0x41FD, 0, 0, [Entry("m", 1)], None, None)
    requires s2.st.inodes[1] == INode(RamFs, 2, DIR_MODE, 0, 0, [Entry("a", 2)], None, None)
    ensures Enabled(s2, MountSd(1, 0, 3)) && s == Apply(s2, MountSd(1, 0, 3))
    ensures s.st.inodes.Keys == {0, 1, 2, 3} && s.st.root == 0 && s.st.free == 93
    ensures s.st.inodes[0] == s2.st.inodes[0] && s.st.inodes[3] == FatInode(FatRoot(0))
    ensures s.st.inodes[1] == INode(RamFs, 2, 0x43FF, 0, 0, [Entry("a", 2)], Some(3), None)
  {
    hide Sound;
    hide Linked;
    hide Counted;
    s := Apply(s2, MountSd(1, 0, 3));
  }

  lemma HiddenDir(s3: Sys) returns (s: Sys)
    requires Inv(s3.st, s3.held, s3.up)
    requires s3.st.inodes.Keys == {0, 1, 2, 3} && s3.st.root == 0 && s3.st.free == 93
    requires s3.st.inodes[0] == INode(RamFs, 3, 0x41FD, 0, 0, [Entry("m", 1)], None, None)
    requires s3.st.inodes[1] == INode(RamFs, 2, 0x43FF, 0, 0, [Entry("a", 2)], Some(3), None)
    requires s3.st.inodes[3] == FatInode(FatRoot(0))
    ensures Enabled(s3, MakeDir(["m", "a"], 5)) && s == Apply(s3, MakeDir(["m", "a"], 5))
    ensures 1 in s.st.inodes && s.st.inodes[1].entries == [Entry("a", 2), Entry("a", 5)]
  {
    hide Sound;
    hide Linked;
    hide Counted;
    hide Walk;
    assert FindEntry([Entry("m", 1)], "m") == Some(0);
    CreateBelow(s3.st, EmptyDisk(), "m", 1, "a", DIR_MODE);
    hide Decide;
    s := Apply(s3, MakeDir(["m", "a"], 5));
  }
}
