/**
 Reference counts of inodes over whole runs: every count is the number of directory entries,
 mount points and holders that refer to the inode.
 */
module FsRuns {
  import opened Options
  import Fat
  import opened PathSpec
  import opened FsSpec

  /** For every inode that is in a directory or mounted: where, and at which entry. */
  type Links = map<nat, (nat, nat)>

  const ROOT_LINKS := 3

  function Own(st: State, up: Links, i: nat): nat
  {
    if i == st.root then ROOT_LINKS else if i in up then 1 else 0
  }

  predicate LinkOk(st: State, up: Links, i: nat)
    requires i in up
  {
    && i in st.inodes && up[i].0 in st.inodes && i != st.root
    && match st.inodes[i].op
       case RamFs => up[i].1 < |st.inodes[up[i].0].entries| && st.inodes[up[i].0].entries[up[i].1].child == i
       case FatFs => st.inodes[up[i].0].mount == Some(i)
  }

  predicate EntryLinked(up: Links, d: nat, k: nat, child: nat) { child in up && up[child] == (d, k) }

  predicate EntriesLinked(up: Links, d: nat, entries: seq<Entry>)
  {
    forall k :: 0 <= k < |entries| ==> EntryLinked(up, d, k, entries[k].child)
  }

  predicate NodeLinked(root: nat, up: Links, i: nat, n: INode)
  {
    && (n.op.RamFs? && i != root ==> i in up)
    && EntriesLinked(up, i, n.entries)
    && (n.mount.Some? ==> EntryLinked(up, i, 0, n.mount.value))
    && (n.mount.Some? <==> Mounted(n.mode))
  }

  /** Each RAM inode but the root is in exactly one entry, each mounted root at one mount point,
      and the mount points are the inodes that are marked as such. */
  predicate Linked(st: State, up: Links)
  {
    && (forall i :: i in up ==> LinkOk(st, up, i))
    && (forall i :: i in st.inodes ==> NodeLinked(st.root, up, i, st.inodes[i]))
  }

  predicate Counted(st: State, held: multiset<nat>, up: Links)
  {
    && (forall i :: i in st.inodes ==> st.inodes[i].count == Own(st, up, i) + held[i])
    && (forall i :: i in held ==> i in st.inodes)
  }

  /** `held` are the references that open files and calls in progress have. */
  predicate Inv(st: State, held: multiset<nat>, up: Links)
  {
    Sound(st) && Linked(st, up) && Counted(st, held, up)
  }

  lemma ParentIsRam(st: State, up: Links, i: nat)
    requires Sound(st) && i in up && LinkOk(st, up, i)
    ensures st.inodes[up[i].0].op.RamFs?
  {
    assert InodeOk(st, up[i].0);
  }

  lemma EvolvesLinked(st: State, st': State, up: Links)
    requires Sound(st) && Linked(st, up) && Evolves(st, st')
    requires forall i :: i in up ==> i in st'.inodes
    ensures Linked(st', up)
  {
    forall i | i in up ensures LinkOk(st', up, i) {
      assert LinkOk(st, up, i);
      ParentIsRam(st, up, i);
    }
    forall i | i in st'.inodes ensures NodeLinked(st'.root, up, i, st'.inodes[i]) {
      if i in st.inodes {
        hide EntriesLinked;
        assert NodeLinked(st.root, up, i, st.inodes[i]) && Alike(st.inodes[i], st'.inodes[i]);
      }
    }
  }

  lemma LinkIsInode(st: State, up: Links)
    requires Linked(st, up)
    ensures forall i :: i in up ==> i in st.inodes
  {
    hide NodeLinked;
    assert forall i :: i in up ==> LinkOk(st, up, i);
  }

  lemma RootIsInode(st: State)
    requires Sound(st)
    ensures OnRam(st, Ram(st.root))
  {
    hide InodeOk;
  }

  lemma WithInv(st: State, held: multiset<nat>, up: Links, node: Node, p: nat)
    requires Inv(st, held, up) && CanHold(st, node, p)
    ensures Inv(With(st, node, p), held + multiset{p}, up)
  {
    hide Sound;
    hide Linked;
    hide Evolves;
    WithEvolves(st, node, p);
    WithSound(st, node, p);
    LinkIsInode(st, up);
    EvolvesLinked(st, With(st, node, p), up);
    assert Counted(With(st, node, p), held + multiset{p}, up);
  }

  /** The last reference that is held is to a FAT inode that is not mounted. */
  lemma LastReference(st: State, held: multiset<nat>, up: Links, p: nat)
    requires Inv(st, held, up) && p in held
    ensures p in st.inodes
    ensures st.inodes[p].count <= 1 <==> held[p] == 1 && Own(st, up, p) == 0
    ensures st.inodes[p].count <= 1 ==> p !in up && p != st.root && st.inodes[p].op.FatFs?
    ensures st.inodes[p].count <= 1 ==> forall i :: i in st.inodes ==> st.inodes[i].mount != Some(p)
  {
    hide Sound;
    hide LinkOk;
    hide EntriesLinked;
    assert NodeLinked(st.root, up, p, st.inodes[p]);
    forall i | i in st.inodes && st.inodes[i].mount == Some(p) ensures p in up {
      assert NodeLinked(st.root, up, i, st.inodes[i]);
    }
  }

  lemma SoundAt(st: State, i: nat)
    requires Sound(st) && i in st.inodes
    ensures st.inodes[i].count >= 1
    ensures st.inodes[i].mount.Some? ==> st.inodes[i].mount.value in st.inodes
  {
    hide EntriesOk;
    assert InodeOk(st, i);
  }

  /** Changing counts and devices only. */
  lemma SameEvolves(st: State, st': State)
    requires Sound(st) && st'.root == st.root && st'.inodes.Keys == st.inodes.Keys
    requires forall i :: i in st'.inodes ==> Alike(st.inodes[i], st'.inodes[i]) && st'.inodes[i].count >= 1
    ensures Evolves(st, st')
  {
    hide Sound;
    hide Alike;
    forall i | i in st.inodes && st.inodes[i].mount.Some? ensures st.inodes[i].mount.value in st'.inodes {
      SoundAt(st, i);
    }
  }

  lemma UnrefEvolves(st: State, held: multiset<nat>, up: Links, p: nat)
    requires Inv(st, held, up) && p in held
    ensures Evolves(st, Unref(st, p)) && forall i :: i in up ==> i in Unref(st, p).inodes
  {
    hide Sound;
    hide Linked;
    LastReference(st, held, up, p);
    LinkIsInode(st, up);
    var st' := Unref(st, p);
    forall i | i in st'.inodes ensures st'.inodes[i].count >= 1 {
      SoundAt(st, i);
    }
    if st.inodes[p].count > 1 {
      SameEvolves(st, st');
    } else {
      forall i | i in st.inodes && st.inodes[i].mount.Some? ensures st.inodes[i].mount.value in st'.inodes {
        SoundAt(st, i);
      }
    }
  }

  /** Only an inode of the mounted volume can lose its last reference. */
  lemma UnrefInv(st: State, held: multiset<nat>, up: Links, p: nat)
    requires Inv(st, held, up) && p in held
    ensures p in st.inodes
    ensures Inv(Unref(st, p), held - multiset{p}, up)
    ensures st.inodes[p].op.RamFs? ==> p in Unref(st, p).inodes
    ensures p !in Unref(st, p).inodes <==> held[p] == 1 && Own(st, up, p) == 0
  {
    hide Sound;
    hide Linked;
    hide Evolves;
    LastReference(st, held, up, p);
    UnrefEvolves(st, held, up, p);
    EvolvesSound(st, Unref(st, p));
    EvolvesLinked(st, Unref(st, p), up);
    assert Counted(Unref(st, p), held - multiset{p}, up);
  }

  lemma AddChildInv(st: State, held: multiset<nat>, up: Links, dir: nat, name: string, p: nat, mode: Mode, mtime: nat)
    requires Inv(st, held, up)
    requires OnRam(st, Ram(dir)) && IsDir(st.inodes[dir].mode) && st.free >= 2 && p !in st.inodes
    requires GoodName(name) && |name| <= RAMFS_MAX_NAME && !Mounted(mode)
    ensures Inv(AddChild(st, dir, name, p, mode, mtime, 2), held + multiset{p},
                up[p := (dir, |st.inodes[dir].entries|)])
  {
    hide Sound;
    hide Linked;
    var st' := AddChild(st, dir, name, p, mode, mtime, 2);
    var up' := up[p := (dir, |st.inodes[dir].entries|)];
    RootIsInode(st);
    LinkIsInode(st, up);
    AddChildSound(st, dir, name, p, mode, mtime, 2);
    AddChildLinked(st, up, dir, name, p, mode, mtime);
    assert Counted(st', held + multiset{p}, up');
  }

  /** A link to something new breaks no other link. */
  lemma LinksKept(up: Links, d: nat, entries: seq<Entry>, p: nat, at: (nat, nat))
    requires p !in up && EntriesLinked(up, d, entries)
    ensures EntriesLinked(up[p := at], d, entries)
  {
    assert forall k :: 0 <= k < |entries| ==> EntryLinked(up, d, k, entries[k].child);
  }

  lemma AddChildLinked(st: State, up: Links, dir: nat, name: string, p: nat, mode: Mode, mtime: nat)
    requires Linked(st, up) && p !in st.inodes && p !in up && st.root in st.inodes
    requires OnRam(st, Ram(dir)) && st.free >= 2 && !Mounted(mode)
    ensures Linked(AddChild(st, dir, name, p, mode, mtime, 2), up[p := (dir, |st.inodes[dir].entries|)])
  {
    hide Mounted;
    hide NodeLinked;
    hide LinkOk;
    var st' := AddChild(st, dir, name, p, mode, mtime, 2);
    var up' := up[p := (dir, |st.inodes[dir].entries|)];
    forall i | i in st'.inodes ensures NodeLinked(st'.root, up', i, st'.inodes[i]) {
      ChildNodeLinked(st, up, dir, name, p, mode, mtime, i);
    }
    forall i | i in up' ensures LinkOk(st', up', i) {
      ChildLinkOk(st, up, dir, name, p, mode, mtime, i);
    }
  }

  lemma ChildNodeLinked(st: State, up: Links, dir: nat, name: string, p: nat, mode: Mode, mtime: nat, i: nat)
    requires p !in st.inodes && p !in up && dir in st.inodes && st.free >= 2 && !Mounted(mode)
    requires i in st.inodes ==> NodeLinked(st.root, up, i, st.inodes[i])
    requires i in AddChild(st, dir, name, p, mode, mtime, 2).inodes
    ensures var st' := AddChild(st, dir, name, p, mode, mtime, 2);
            NodeLinked(st'.root, up[p := (dir, |st.inodes[dir].entries|)], i, st'.inodes[i])
  {
    hide Mounted;
    if i in st.inodes {
      LinksKept(up, i, st.inodes[i].entries, p, (dir, |st.inodes[dir].entries|));
    }
  }

  lemma ChildLinkOk(st: State, up: Links, dir: nat, name: string, p: nat, mode: Mode, mtime: nat, i: nat)
    requires p !in st.inodes && p !in up && OnRam(st, Ram(dir)) && st.free >= 2 && st.root in st.inodes
    requires i == p || (i in up && LinkOk(st, up, i))
    ensures LinkOk(AddChild(st, dir, name, p, mode, mtime, 2), up[p := (dir, |st.inodes[dir].entries|)], i)
  {
  }

  // --- Mounting ---------------------------------------------------------------------------

  function FatRoot(mtime: nat): FatFile { FatFile(true, false, mtime, Fat.END_CLUSTER, 0) }

  /** fatfs_mount_sd. */
  function Mount(st: State, dir: nat, p: nat, mtime: nat): State
    requires dir in st.inodes && st.free >= 2
  {
    var d := st.inodes[dir];
    State(st.inodes[p := FatInode(FatRoot(mtime))][dir := d.(mode := SetMounted(d.mode), mount := Some(p))],
          st.root, st.free - 2)
  }

  /** `m | S_ISVTX` */
  function SetMounted(m: Mode): (r: Mode)
    ensures Mounted(r) && FileType(r) == FileType(m)
  {
    if Mounted(m) then m
    else
      assert m / 0x200 == 8 * (m / 0x1000) + m / 0x200 % 8;
      m + 0x200
  }

  lemma MountInv(st: State, held: multiset<nat>, up: Links, dir: nat, p: nat, mtime: nat)
    requires Inv(st, held, up) && OnRam(st, Ram(dir)) && st.free >= 2 && p !in st.inodes
    requires !Mounted(st.inodes[dir].mode)
    ensures Inv(Mount(st, dir, p, mtime), held, up[p := (dir, 0)])
  {
    hide Sound;
    hide Linked;
    hide SetMounted;
    var st' := Mount(st, dir, p, mtime);
    RootIsInode(st);
    LinkIsInode(st, up);
    MountSound(st, dir, p, mtime);
    MountLinked(st, up, dir, p, mtime);
    assert Counted(st', held, up[p := (dir, 0)]);
  }

  lemma MountLinked(st: State, up: Links, dir: nat, p: nat, mtime: nat)
    requires Linked(st, up) && OnRam(st, Ram(dir)) && st.free >= 2
    requires p !in st.inodes && p !in up && st.root in st.inodes
    requires !Mounted(st.inodes[dir].mode)
    ensures Linked(Mount(st, dir, p, mtime), up[p := (dir, 0)])
  {
    hide SetMounted;
    var st' := Mount(st, dir, p, mtime);
    var up' := up[p := (dir, 0)];
    forall i | i in st'.inodes ensures NodeLinked(st'.root, up', i, st'.inodes[i]) {
      if i in st.inodes {
        assert NodeLinked(st.root, up, i, st.inodes[i]);
        LinksKept(up, i, st.inodes[i].entries, p, (dir, 0));
      }
    }
    forall i | i in up' ensures LinkOk(st', up', i) {
      assert i in up ==> LinkOk(st, up, i);
    }
  }

  lemma MountSound(st: State, dir: nat, p: nat, mtime: nat)
    requires Sound(st) && OnRam(st, Ram(dir)) && st.free >= 2 && p !in st.inodes
    requires !Mounted(st.inodes[dir].mode)
    ensures Sound(Mount(st, dir, p, mtime))
  {
    hide SetMounted;
    var st' := Mount(st, dir, p, mtime);
    assert KeepsRam(st, st');
    forall i | i in st'.inodes ensures InodeOk(st', i) {
      if i in st.inodes {
        assert InodeOk(st, i);
        EntriesKept(st, st', st.inodes[i].entries);
      }
    }
  }

  // --- Runs -----------------------------------------------------------------------------------

  /** `lent` counts the buffers that open files have for themselves. */
  datatype Sys = Sys(st: State, held: multiset<nat>, up: Links, lent: nat)

  /** Opening a path keeps the reference that inode_lookup returns; closing gives one back.
      A lookup whose caller does not want the inode is an Open and a Close.  `p` is the buffer
      that the cache hands out if an inode is made.  Exchange is what opening a mount point
      does; opening and closing a file of the volume takes and gives one buffer more. */
  datatype Step =
    | Open(comps: seq<string>, oflag: nat, mode: Mode, mtime: nat, disk: Disk, p: nat)
    | Close(ino: nat)
    | SetDevice(ino: nat, device: nat)
    | MountSd(dir: nat, mtime: nat, p: nat)
    | Exchange(ino: nat)
    | TakeBuffer
    | GiveBuffer

  function Held(node: Node, p: nat): nat { if node.Ram? then node.ino else p }

  predicate Enabled(s: Sys, step: Step)
  {
    match step
    case Open(comps, _, mode, _, _, p) => GoodStack(comps) && p !in s.st.inodes && !Mounted(mode)
    case Close(i) => i in s.held
    case SetDevice(i, _) => i in s.held && i in s.st.inodes && IsDevice(s.st.inodes[i].mode)
    case MountSd(d, _, p) => d in s.held && p !in s.st.inodes && OnRam(s.st, Ram(d)) && !Mounted(s.st.inodes[d].mode)
    case Exchange(i) => i in s.held && OnRam(s.st, Ram(i)) && Mounted(s.st.inodes[i].mode)
    case TakeBuffer => s.st.free >= 1
    case GiveBuffer => s.lent >= 1
  }

  function WithDevice(st: State, i: nat, device: nat): State
    requires i in st.inodes
  {
    st.(inodes := st.inodes[i := st.inodes[i].(device := device)])
  }

  function Apply(s: Sys, step: Step): (s': Sys)
    requires Inv(s.st, s.held, s.up) && Enabled(s, step)
    ensures Inv(s'.st, s'.held, s'.up)
  {
    hide Sound;
    hide Linked;
    hide Counted;
    match step
    case Open(comps, oflag, mode, mtime, disk, p) => OpenStep(s, comps, oflag, mode, mtime, disk, p)
    case Close(i) => UnrefInv(s.st, s.held, s.up, i); s.(st := Unref(s.st, i), held := s.held - multiset{i})
    case SetDevice(i, device) => DeviceInv(s.st, s.held, s.up, i, device); s.(st := WithDevice(s.st, i, device))
    case MountSd(d, mtime, p) =>
      if s.st.free < 2 then s
      else
        MountInv(s.st, s.held, s.up, d, p, mtime);
        s.(st := Mount(s.st, d, p, mtime), up := s.up[p := (d, 0)])
    case Exchange(i) => ExchangeStep(s, i)
    case TakeBuffer =>
      FreeInv(s.st, s.held, s.up, s.st.free - 1);
      s.(st := SetFree(s.st, s.st.free - 1), lent := s.lent + 1)
    case GiveBuffer =>
      FreeInv(s.st, s.held, s.up, s.st.free + 1);
      s.(st := SetFree(s.st, s.st.free + 1), lent := s.lent - 1)
  }

  lemma FreeInv(st: State, held: multiset<nat>, up: Links, free: nat)
    requires Inv(st, held, up)
    ensures Inv(SetFree(st, free), held, up)
  {
    hide NodeLinked;
    var st' := SetFree(st, free);
    assert KeepsRam(st, st');
    forall i | i in st'.inodes ensures InodeOk(st', i) {
      assert InodeOk(st, i);
      EntriesKept(st, st', st.inodes[i].entries);
    }
    forall i | i in up ensures LinkOk(st', up, i) {
      assert LinkOk(st, up, i);
    }
  }

  /** The directory's reference is given up for one to the root of the volume mounted on it. */
  function ExchangeStep(s: Sys, i: nat): (s': Sys)
    requires Inv(s.st, s.held, s.up) && i in s.held && OnRam(s.st, Ram(i)) && Mounted(s.st.inodes[i].mode)
    ensures Inv(s'.st, s'.held, s'.up)
  {
    MountedInode(s.st, s.up, i);
    var m := s.st.inodes[i].mount.value;
    RefInv(s.st, s.held, s.up, m);
    UnrefInv(Ref(s.st, m), s.held + multiset{m}, s.up, i);
    s.(st := Unref(Ref(s.st, m), i), held := s.held + multiset{m} - multiset{i})
  }

  lemma MountedInode(st: State, up: Links, i: nat)
    requires Sound(st) && Linked(st, up) && i in st.inodes && Mounted(st.inodes[i].mode)
    ensures st.inodes[i].mount.Some? && st.inodes[i].mount.value in st.inodes && st.inodes[i].mount.value != i
    ensures st.inodes[st.inodes[i].mount.value].op.FatFs?
  {
    hide EntriesOk;
    hide EntriesLinked;
    hide LinkOk;
    assert NodeLinked(st.root, up, i, st.inodes[i]);
    assert InodeOk(st, i);
  }

  lemma RefInv(st: State, held: multiset<nat>, up: Links, i: nat)
    requires Inv(st, held, up) && i in st.inodes
    ensures Inv(Ref(st, i), held + multiset{i}, up)
  {
    hide Sound;
    hide Linked;
    hide Evolves;
    var st' := Ref(st, i);
    LinkIsInode(st, up);
    forall j | j in st'.inodes ensures Alike(st.inodes[j], st'.inodes[j]) && st'.inodes[j].count >= 1 {
      SoundAt(st, j);
    }
    SameEvolves(st, st');
    EvolvesSound(st, st');
    EvolvesLinked(st, st', up);
    assert Counted(st', held + multiset{i}, up);
  }

  function OpenStep(s: Sys, comps: seq<string>, oflag: nat, mode: Mode, mtime: nat, disk: Disk, p: nat): (s': Sys)
    requires Inv(s.st, s.held, s.up) && GoodStack(comps) && p !in s.st.inodes && !Mounted(mode)
    ensures Inv(s'.st, s'.held, s'.up)
  {
    match Decide(s.st, disk, comps, oflag, mode)
    case Fail(_) => s
    case Existing(node) =>
      ExistingCanHold(s.st, disk, comps, oflag, mode, p);
      WithInv(s.st, s.held, s.up, node, Held(node, p));
      s.(st := With(s.st, node, Held(node, p)), held := s.held + multiset{Held(node, p)})
    case Create(d, name) =>
      CreatedName(s.st, disk, comps, oflag, mode);
      AddChildInv(s.st, s.held, s.up, d, name, p, mode, mtime);
      s.(st := AddChild(s.st, d, name, p, mode, mtime, 2), held := s.held + multiset{p},
         up := s.up[p := (d, |s.st.inodes[d].entries|)])
  }

  /** What the steps of open files do to references and lent buffers. */
  lemma StepEffect(s: Sys, step: Step)
    requires Inv(s.st, s.held, s.up) && Enabled(s, step)
    ensures var s' := Apply(s, step);
            match step
            case Close(i) => s'.held == s.held - multiset{i} && s'.lent == s.lent
            case TakeBuffer => s'.held == s.held && s'.lent == s.lent + 1
            case GiveBuffer => s'.held == s.held && s'.lent == s.lent - 1
            case Exchange(i) =>
              && s.st.inodes[i].mount.Some? && s'.lent == s.lent
              && s'.held == s.held + multiset{s.st.inodes[i].mount.value} - multiset{i}
            case _ => true
  {
    hide Sound;
    hide Linked;
    hide Counted;
    if step.Exchange? {
      MountedInode(s.st, s.up, step.ino);
    }
  }

  lemma DeviceInv(st: State, held: multiset<nat>, up: Links, i: nat, device: nat)
    requires Inv(st, held, up) && i in held
    ensures Inv(WithDevice(st, i, device), held, up)
  {
    hide Sound;
    hide Linked;
    hide Evolves;
    var st' := WithDevice(st, i, device);
    LinkIsInode(st, up);
    forall j | j in st'.inodes ensures Alike(st.inodes[j], st'.inodes[j]) && st'.inodes[j].count >= 1 {
      SoundAt(st, j);
    }
    SameEvolves(st, st');
    EvolvesSound(st, st');
    EvolvesLinked(st, st', up);
  }

  /** A walk ends at a FAT file only where the cache had the two buffers for it. */
  lemma {:induction false} WalkCanHold(st: State, disk: Disk, node: Node, comps: seq<string>, p: nat)
    requires Sound(st) && OnRam(st, node) && p !in st.inodes && (node.Fat? ==> st.free >= 2)
    ensures var r := Walk(st, disk, node, comps); r.Reached? ==> CanHold(st, r.node, Held(r.node, p))
    decreases |comps|
  {
    if comps != [] && IsDir(ModeOf(st, node)) {
      var c := ChildOf(st, disk, node, comps[0]);
      if c.Child? {
        WalkCanHold(st, disk, c.node, comps[1..], p);
      }
    }
  }

  lemma ExistingCanHold(st: State, disk: Disk, comps: seq<string>, oflag: nat, mode: Mode, p: nat)
    requires Sound(st) && p !in st.inodes
    ensures var r := Decide(st, disk, comps, oflag, mode); r.Existing? ==> CanHold(st, r.node, Held(r.node, p))
  {
    WalkCanHold(st, disk, Ram(st.root), comps, p);
  }

  lemma {:induction false} WalkName(st: State, disk: Disk, node: Node, comps: seq<string>)
    requires Sound(st) && OnRam(st, node)
    ensures var r := Walk(st, disk, node, comps); r.NoEntry? ==> comps != [] && r.name == comps[|comps| - 1]
    decreases |comps|
  {
    if comps != [] && IsDir(ModeOf(st, node)) {
      var c := ChildOf(st, disk, node, comps[0]);
      if c.Child? {
        WalkName(st, disk, c.node, comps[1..]);
      }
    }
  }

  lemma CreatedName(st: State, disk: Disk, comps: seq<string>, oflag: nat, mode: Mode)
    requires Sound(st) && GoodStack(comps)
    ensures var r := Decide(st, disk, comps, oflag, mode);
            r.Create? ==> comps != [] && r.name == comps[|comps| - 1] && GoodName(r.name)
  {
    WalkName(st, disk, Ram(st.root), comps);
  }

  /** ramfs_init: the root alone, with its three references. */
  function Boot(root: nat, mode: Mode, mtime: nat, buffers: nat): Sys
    requires buffers >= 1
  {
    Sys(State(map[root := INode(RamFs, ROOT_LINKS, mode, mtime, 0, [], None, None)], root, buffers - 1), multiset{},
        map[], 0)
  }

  ghost predicate Legal(s: Sys, steps: seq<Step>)
    requires Inv(s.st, s.held, s.up)
    decreases |steps|
  {
    steps == [] || (Enabled(s, steps[0]) && Legal(Apply(s, steps[0]), steps[1..]))
  }

  /** In every state that a run of the kernel can reach, each count is exactly the number of
      entries, mounts and holders, so nothing that is still referred to is ever released. */
  ghost function Exec(s: Sys, steps: seq<Step>): (s': Sys)
    requires Inv(s.st, s.held, s.up) && Legal(s, steps)
    ensures Inv(s'.st, s'.held, s'.up)
    decreases |steps|
  {
    if steps == [] then s else Exec(Apply(s, steps[0]), steps[1..])
  }

  lemma EveryRunCounts(root: nat, mode: Mode, mtime: nat, buffers: nat, steps: seq<Step>, i: nat)
    requires buffers >= 1 && IsDir(mode) && !Mounted(mode)
    ensures var b := Boot(root, mode, mtime, buffers); Inv(b.st, b.held, b.up)
    ensures var b := Boot(root, mode, mtime, buffers);
            Legal(b, steps) ==>
              var s := Exec(b, steps);
              && (i in s.held ==> i in s.st.inodes)
              && (i in s.st.inodes ==> s.st.inodes[i].count == Own(s.st, s.up, i) + s.held[i] >= 1)
              && (i in s.up ==> LinkOk(s.st, s.up, i))
  {
    var b := Boot(root, mode, mtime, buffers);
    assert Inv(b.st, b.held, b.up);
    if Legal(b, steps) {
      var s := Exec(b, steps);
      assert i in s.st.inodes ==> InodeOk(s.st, i);
    }
  }

  // --- Reference neutrality -----------------------------------------------------------------

  /** Whatever inode_lookup finds, giving its reference back leaves every count, every inode
      and the number of free buffers as they were before the lookup. */
  lemma OpenThenClose(s: Sys, step: Step)
    requires Inv(s.st, s.held, s.up) && step.Open? && Enabled(s, step)
    ensures var d := Decide(s.st, step.disk, step.comps, step.oflag, step.mode);
            var s' := Apply(s, step);
            && (d.Fail? ==> s' == s)
            && (d.Existing? ==>
                  var q := Held(d.node, step.p);
                  s'.held == s.held + multiset{q} && Enabled(s', Close(q)) && Apply(s', Close(q)) == s)
            && (d.Create? ==>
                  && s'.held == s.held + multiset{step.p} && Enabled(s', Close(step.p))
                  && Apply(s', Close(step.p)).st == AddChild(s.st, d.dir, d.name, step.p, step.mode, step.mtime, 1))
  {
    hide Linked;
    hide Counted;
    hide Decide;
    var d := Decide(s.st, step.disk, step.comps, step.oflag, step.mode);
    if d.Existing? {
      ExistingCanHold(s.st, step.disk, step.comps, step.oflag, step.mode, step.p);
      UnrefWith(s.st, d.node, Held(d.node, step.p));
      assert s.held + multiset{Held(d.node, step.p)} - multiset{Held(d.node, step.p)} == s.held;
    } else if d.Create? {
      UnrefChild(s.st, d.dir, d.name, step.p, step.mode, step.mtime);
    }
  }

  lemma UnrefChild(st: State, dir: nat, name: string, p: nat, mode: Mode, mtime: nat)
    requires dir in st.inodes && st.free >= 2 && p !in st.inodes
    ensures Unref(AddChild(st, dir, name, p, mode, mtime, 2), p) == AddChild(st, dir, name, p, mode, mtime, 1)
  {
    var st' := AddChild(st, dir, name, p, mode, mtime, 2);
    assert Unref(st', p).inodes == AddChild(st, dir, name, p, mode, mtime, 1).inodes;
  }
}
