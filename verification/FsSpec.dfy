/**
 The kernel's inodes as a value: what each inode says, which directory entries it has, how
 many references it carries and how many buffers of the cache are free (os/inode.c,
 os/fs/ram/ramfs.c, os/fs/fat/fatfs.c).  Inodes are named by the buffer they live in.
 */
module FsSpec {
  import opened Options
  import opened Errno
  import opened PathSpec

  const RAMFS_MAX_NAME := 13
  const O_CREAT_EXCL := 0xC0
  const F_OK := 0
  const X_OK := 1
  const W_OK := 2
  const R_OK := 3

  // --- Modes and flags ---------------------------------------------------------------

  type Mode = m: nat | m < 0x1_0000
  type Code = n: nat | n >= 1 witness 1

  function FileType(m: Mode): nat { m / 0x1000 }

  predicate IsDir(m: Mode) { FileType(m) == 4 }

  predicate IsLnk(m: Mode) { FileType(m) == 10 }

  /** S_ISVTX marks a directory that something is mounted on. */
  predicate Mounted(m: Mode) { m / 0x200 % 2 == 1 }

  /** Character and block devices. */
  predicate IsDevice(m: Mode) { FileType(m) == 2 || FileType(m) == 6 }

  predicate Creates(oflag: nat) { oflag / 0x40 % 2 == 1 }

  predicate Exclusive(oflag: nat) { oflag / 0x80 % 2 == 1 }

  /** inode_access: all bits of `want` among the owner's permission bits. */
  function Access(m: Mode, want: nat): int
  {
    var user := m / 0x40 % 8;
    if want == F_OK then 0
    else if want < 8 && want % 2 <= user % 2 && want / 2 % 2 <= user / 2 % 2 && want / 4 <= user / 4 then 0
    else -EACCES
  }

  /** oflag_to_access_mode; R_OK | W_OK is R_OK. */
  function AccessMode(oflag: nat): nat
  {
    if oflag % 4 == 1 then W_OK else if oflag % 4 == 3 then X_OK else R_OK
  }

  /** `m & ~mask` */
  function AndNot(m: nat, mask: nat): (r: nat)
    ensures r <= m
  {
    if m == 0 then 0
    else (if m % 2 == 1 && mask % 2 == 0 then 1 else 0) + 2 * AndNot(m / 2, mask / 2)
  }

  // --- Inodes --------------------------------------------------------------------------

  datatype Op = RamFs | FatFs

  datatype Entry = Entry(name: string, child: nat)

  /** A directory entry of the mounted FAT volume. */
  datatype FatFile = FatFile(isDir: bool, readOnly: bool, mtime: nat, cluster: nat, size: nat)

  function FatMode(f: FatFile): Mode
  {
    (if f.readOnly then 0x16D else 0x1ED) + (if f.isDir then 0x4000 else 0x8000)
  }

  datatype INode = INode(op: Op, count: int, mode: Mode, mtime: nat, device: nat,
                         entries: seq<Entry>, mount: Option<nat>, info: Option<(nat, nat)>)

  datatype State = State(inodes: map<nat, INode>, root: nat, free: nat)

  function FatInode(f: FatFile): INode
  {
    INode(FatFs, 1, FatMode(f), f.mtime, 0, [], None, Some((f.cluster, f.size)))
  }

  function RamInode(mode: Mode, mtime: nat, count: nat): INode
  {
    INode(RamFs, count, mode, mtime, 0, [], None, None)
  }

  predicate EntryOk(st: State, e: Entry)
  {
    && e.child in st.inodes && st.inodes[e.child].op.RamFs?
    && GoodName(e.name) && |e.name| <= RAMFS_MAX_NAME
  }

  predicate EntriesOk(st: State, entries: seq<Entry>)
  {
    forall k :: 0 <= k < |entries| ==> EntryOk(st, entries[k])
  }

  predicate InodeOk(st: State, i: nat)
    requires i in st.inodes
  {
    var n := st.inodes[i];
    && n.count >= 1
    && (n.op.FatFs? ==> n.info.Some? && n.entries == [] && n.mount.None?)
    && (n.op.RamFs? ==> n.info.None?)
    && (n.entries != [] ==> IsDir(n.mode))
    && EntriesOk(st, n.entries)
    && (n.mount.Some? ==> n.mount.value in st.inodes && st.inodes[n.mount.value].op.FatFs?)
  }

  /** Every pointer leads to an inode of the right kind, and every name is a good one. */
  predicate Sound(st: State)
  {
    && st.root in st.inodes && st.inodes[st.root].op.RamFs? && IsDir(st.inodes[st.root].mode)
    && forall i :: i in st.inodes ==> InodeOk(st, i)
  }

  // --- Changes ---------------------------------------------------------------------------

  function SetCount(st: State, i: nat, count: int): State
    requires i in st.inodes
  {
    st.(inodes := st.inodes[i := st.inodes[i].(count := count)])
  }

  function SetFree(st: State, n: nat): State { st.(free := n) }

  function Ref(st: State, i: nat): State
    requires i in st.inodes
  {
    SetCount(st, i, st.inodes[i].count + 1)
  }

  /** The buffers that releasing an inode gives back: its own and its FAT information. */
  function Size(n: INode): nat { if n.info.Some? then 2 else 1 }

  /** inode_deref: the last reference releases the inode to the buffer cache. */
  function Unref(st: State, i: nat): State
    requires i in st.inodes
  {
    if st.inodes[i].count > 1 then SetCount(st, i, st.inodes[i].count - 1)
    else State(st.inodes - {i}, st.root, st.free + Size(st.inodes[i]))
  }

  function AddFat(st: State, p: nat, f: FatFile): State
    requires st.free >= 2
  {
    State(st.inodes[p := FatInode(f)], st.root, st.free - 2)
  }

  /** A new inode `p` with `count` references, and an entry for it at the end of `dir`. */
  function AddChild(st: State, dir: nat, name: string, p: nat, mode: Mode, mtime: nat, count: nat): State
    requires dir in st.inodes && st.free >= 2
  {
    var d := st.inodes[dir];
    State(st.inodes[p := RamInode(mode, mtime, count)]
                   [dir := d.(entries := d.entries + [Entry(name, p)])],
          st.root, st.free - 2)
  }

  // --- Walking ---------------------------------------------------------------------------

  /** Where a walk stands: at a RAM inode, or at a file of the mounted volume. */
  datatype Node = Ram(ino: nat) | Fat(file: FatFile)

  /** The mounted volume: what looking up a name in the directory at a cluster finds. */
  datatype Answer = Missing(code: Code) | Present(file: FatFile)
  type Disk = (nat, string) -> Answer

  datatype Found = Error(code: int) | Child(node: Node)

  predicate OnRam(st: State, node: Node)
  {
    node.Ram? ==> node.ino in st.inodes && st.inodes[node.ino].op.RamFs?
  }

  function ModeOf(st: State, node: Node): Mode
    requires OnRam(st, node)
  {
    match node
    case Ram(i) => st.inodes[i].mode
    case Fat(f) => FatMode(f)
  }

  /** The first entry with a name. */
  function FindEntry(entries: seq<Entry>, name: string): (r: Option<nat>)
    ensures r.None? ==> forall k :: 0 <= k < |entries| ==> entries[k].name != name
    ensures r.Some? ==> r.value < |entries| && entries[r.value].name == name
    ensures r.Some? ==> forall k :: 0 <= k < r.value ==> entries[k].name != name
  {
    if entries == [] then None
    else
      var n := |entries| - 1;
      var r := FindEntry(entries[..n], name);
      if r.Some? then r else if entries[n].name == name then Some(n) else None
  }

  /** fatfs_lookup, when `free` buffers are left for the new inode. */
  function FatChild(disk: Disk, free: int, mode: Mode, cluster: nat, name: string): (r: Found)
    ensures r.Error? ==> r.code < 0
  {
    if !IsDir(mode) then Error(-ENOTDIR)
    else
      match disk(cluster, name)
      case Missing(code) => var n: int := code; Error(-n)
      case Present(f) => if free < 2 then Error(-ENOMEM) else Child(Fat(f))
  }

  /** ramfs_lookup. */
  function RamChild(st: State, disk: Disk, i: nat, name: string): (r: Found)
    requires Sound(st) && i in st.inodes
    ensures r.Child? ==> OnRam(st, r.node)
    ensures r.Error? ==> r.code < 0
  {
    var d := st.inodes[i];
    if !IsDir(d.mode) then Error(-ENOTDIR)
    else if Mounted(d.mode) then
      if d.mount.None? then Error(-ENOENT)
      else
        assert InodeOk(st, i) && InodeOk(st, d.mount.value);
        var m := st.inodes[d.mount.value];
        FatChild(disk, st.free, m.mode, m.info.value.0, name)
    else
      var k := FindEntry(d.entries, name);
      if k.None? then Error(-ENOENT)
      else
        assert InodeOk(st, i) && EntryOk(st, d.entries[k.value]);
        Child(Ram(d.entries[k.value].child))
  }

  /** One step down.  A walk that stands at a FAT file has taken two buffers for it. */
  function ChildOf(st: State, disk: Disk, node: Node, name: string): (r: Found)
    requires Sound(st) && OnRam(st, node)
    ensures r.Child? ==> OnRam(st, r.node)
    ensures r.Error? ==> r.code < 0
  {
    match node
    case Ram(i) => RamChild(st, disk, i, name)
    case Fat(f) => FatChild(disk, st.free - 2, FatMode(f), f.cluster, name)
  }

  /** How a walk ends: on an error, at a node, or at a directory that lacks the last name. */
  datatype Outcome = Stopped(code: int) | Reached(node: Node) | NoEntry(dir: Node, name: string)

  function Walk(st: State, disk: Disk, node: Node, comps: seq<string>): (r: Outcome)
    requires Sound(st) && OnRam(st, node)
    ensures r.Reached? ==> OnRam(st, r.node)
    ensures r.NoEntry? ==> OnRam(st, r.dir) && IsDir(ModeOf(st, r.dir))
    ensures r.Stopped? ==> r.code < 0
    decreases |comps|
  {
    if comps == [] then Reached(node)
    else if !IsDir(ModeOf(st, node)) then Stopped(-ENOTDIR)
    else if Access(ModeOf(st, node), X_OK) < 0 then Stopped(Access(ModeOf(st, node), X_OK))
    else
      match ChildOf(st, disk, node, comps[0])
      case Error(code) => if code == -ENOENT && |comps| == 1 then NoEntry(node, comps[0]) else Stopped(code)
      case Child(next) =>
        if IsLnk(ModeOf(st, next)) then Stopped(-EINVAL) else Walk(st, disk, next, comps[1..])
  }

  lemma WalkNowhere(st: State, disk: Disk, node: Node)
    requires Sound(st) && OnRam(st, node)
    ensures Walk(st, disk, node, []) == Reached(node)
  {
    hide Sound;
  }

  // --- inode_lookup ------------------------------------------------------------------------

  datatype Decision = Fail(code: int) | Existing(node: Node) | Create(dir: nat, name: string)

  /** The checks on a node that was found. */
  function Accept(st: State, node: Node, oflag: nat, mode: Mode): (r: Decision)
    requires OnRam(st, node)
    ensures r.Fail? ==> r.code < 0
    ensures r.Existing? ==> r.node == node
    ensures !r.Create?
  {
    var m := ModeOf(st, node);
    if Access(m, AccessMode(oflag)) < 0 then Fail(Access(m, AccessMode(oflag)))
    else if FileType(mode) != FileType(m) then
      if IsDir(mode) then Fail(-ENOTDIR) else if IsDir(m) then Fail(-EISDIR) else Fail(-EACCES)
    else if Creates(oflag) && Exclusive(oflag) then Fail(-EEXIST)
    else Existing(node)
  }

  /** The checks before a missing last name is created. */
  function MayCreate(st: State, dir: Node, name: string, oflag: nat): (r: Decision)
    requires OnRam(st, dir)
    ensures r.Fail? ==> r.code < 0
    ensures r.Create? ==> dir == Ram(r.dir) && r.name == name && |name| <= RAMFS_MAX_NAME && st.free >= 2
    ensures !r.Existing?
  {
    var a := Access(ModeOf(st, dir), W_OK);
    if !Creates(oflag) then Fail(-ENOENT)
    else if a < 0 then Fail(a)
    else if dir.Fat? then Fail(-EROFS)
    else if |name| > RAMFS_MAX_NAME then Fail(-ENAMETOOLONG)
    else if st.free < 2 then Fail(-ENOMEM)
    else Create(dir.ino, name)
  }

  function Decide(st: State, disk: Disk, comps: seq<string>, oflag: nat, mode: Mode): (r: Decision)
    requires Sound(st)
    ensures r.Fail? ==> r.code < 0
    ensures r.Existing? ==> OnRam(st, r.node)
    ensures r.Create? ==> OnRam(st, Ram(r.dir)) && IsDir(st.inodes[r.dir].mode) && |r.name| <= RAMFS_MAX_NAME
    ensures r.Create? ==> st.free >= 2
  {
    match Walk(st, disk, Ram(st.root), comps)
    case Stopped(code) => Fail(code)
    case Reached(node) => Accept(st, node, oflag, mode)
    case NoEntry(dir, name) => MayCreate(st, dir, name, oflag)
  }

  // --- Holding a node --------------------------------------------------------------------

  /** The state in which one more reference to `node`, as inode `p`, is held. */
  function With(st: State, node: Node, p: nat): State
    requires CanHold(st, node, p)
  {
    match node
    case Ram(i) => Ref(st, i)
    case Fat(f) => AddFat(st, p, f)
  }

  predicate CanHold(st: State, node: Node, p: nat)
  {
    match node
    case Ram(i) => p == i && i in st.inodes && st.inodes[i].op.RamFs?
    case Fat(_) => p !in st.inodes && st.free >= 2
  }

  /** Giving the reference back restores the state, counts and free buffers included. */
  lemma UnrefWith(st: State, node: Node, p: nat)
    requires Sound(st) && CanHold(st, node, p)
    ensures p in With(st, node, p).inodes && Unref(With(st, node, p), p) == st
  {
    match node
    case Ram(i) =>
      assert InodeOk(st, i);
      assert st.inodes[i := st.inodes[i].(count := st.inodes[i].count + 1)][i := st.inodes[i]] == st.inodes;
    case Fat(f) =>
      assert st.inodes[p := FatInode(f)] - {p} == st.inodes;
  }

  lemma CountIsPositive(st: State, i: nat)
    requires Sound(st) && i in st.inodes
    ensures st.inodes[i].count >= 1
  {
    assert InodeOk(st, i);
  }

  /** Exchanging the node that is held for its child leaves only the child's reference. */
  lemma UnrefParent(st: State, node: Node, p: nat, next: Node, q: nat)
    requires Sound(st) && CanHold(st, node, p) && CanHold(With(st, node, p), next, q)
    requires next.Ram? ==> q in st.inodes
    ensures CanHold(st, next, q)
    ensures p in With(With(st, node, p), next, q).inodes
    ensures Unref(With(With(st, node, p), next, q), p) == With(st, next, q)
  {
    hide InodeOk;
    if node.Fat? {
      assert q != p;
      assert With(With(st, node, p), next, q).inodes - {p} == With(st, next, q).inodes;
    } else {
      CountIsPositive(st, p);
      assert Unref(With(With(st, node, p), next, q), p).inodes == With(st, next, q).inodes;
    }
  }

  // --- Keeping the state sound ------------------------------------------------------------

  /** The same inode up to its count and its device. */
  predicate Alike(n: INode, m: INode)
  {
    n.op == m.op && n.entries == m.entries && n.mount == m.mount && n.info == m.info && n.mode == m.mode
  }

  /** Inodes stay alike; only new FAT inodes come, and only FAT inodes that are not mounted go. */
  predicate Evolves(st: State, st': State)
  {
    && st'.root == st.root
    && (forall i :: i in st'.inodes ==> st'.inodes[i].count >= 1)
    && (forall i :: i in st'.inodes && i in st.inodes ==> Alike(st.inodes[i], st'.inodes[i]))
    && (forall i :: i in st'.inodes && i !in st.inodes ==> PlainFat(st'.inodes[i]))
    && (forall i :: i in st.inodes && st.inodes[i].op.RamFs? ==> i in st'.inodes)
    && (forall i :: i in st.inodes && st.inodes[i].mount.Some? ==> st.inodes[i].mount.value in st'.inodes)
  }

  predicate PlainFat(n: INode)
  {
    n.op.FatFs? && n.info.Some? && n.entries == [] && n.mount.None? && !Mounted(n.mode)
  }

  /** RAM inodes stay RAM inodes. */
  predicate KeepsRam(st: State, st': State)
  {
    forall i :: i in st.inodes && st.inodes[i].op.RamFs? ==> i in st'.inodes && st'.inodes[i].op.RamFs?
  }

  lemma EntriesKept(st: State, st': State, entries: seq<Entry>)
    requires EntriesOk(st, entries) && KeepsRam(st, st')
    ensures EntriesOk(st', entries)
  {
    assert forall k :: 0 <= k < |entries| ==> EntryOk(st, entries[k]);
  }

  lemma EvolvesSound(st: State, st': State)
    requires Sound(st) && Evolves(st, st')
    ensures Sound(st')
  {
    assert KeepsRam(st, st');
    forall i | i in st'.inodes ensures InodeOk(st', i) {
      if i in st.inodes {
        assert InodeOk(st, i);
        EntriesKept(st, st', st.inodes[i].entries);
      }
    }
  }

  lemma WithEvolves(st: State, node: Node, p: nat)
    requires Sound(st) && CanHold(st, node, p)
    ensures Evolves(st, With(st, node, p))
  {
    forall i | i in st.inodes ensures InodeOk(st, i) {}
    hide EntriesOk;
  }

  lemma WithSound(st: State, node: Node, p: nat)
    requires Sound(st) && CanHold(st, node, p)
    ensures Sound(With(st, node, p))
  {
    WithEvolves(st, node, p);
    EvolvesSound(st, With(st, node, p));
  }

  lemma AddChildSound(st: State, dir: nat, name: string, p: nat, mode: Mode, mtime: nat, count: nat)
    requires Sound(st) && OnRam(st, Ram(dir)) && IsDir(st.inodes[dir].mode) && st.free >= 2 && p !in st.inodes
    requires GoodName(name) && |name| <= RAMFS_MAX_NAME && count >= 1
    ensures Sound(AddChild(st, dir, name, p, mode, mtime, count))
  {
    var st' := AddChild(st, dir, name, p, mode, mtime, count);
    assert KeepsRam(st, st');
    forall i | i in st'.inodes ensures InodeOk(st', i) {
      if i in st.inodes {
        assert InodeOk(st, i);
        EntriesKept(st, st', st.inodes[i].entries);
      }
    }
  }
}
