/**
 What inode_lookup answers (os/inode.c), case by case: where a walk along the tree stops and
 with which error, exactly when a lookup finds, creates or fails, and what the changes to the
 inodes are, field by field.
 */
module LookupResults {
  import opened Options
  import opened Bits
  import opened Errno
  import opened FsSpec
  import opened FsModes
  import opened FsTree
  import FsRuns

  // --- Where a walk stops ------------------------------------------------------------------

  /** How a walk ends that has come to path `q` of the tree and goes on to `name`, unless it
      can go on from there. */
  ghost predicate EndsAt(st: State, t: Names, q: Path, name: string, last: bool, r: Outcome)
    requires q in t.at && t.at[q] in st.inodes
    requires q + [name] in t.at ==> t.at[q + [name]] in st.inodes
  {
    var m := st.inodes[t.at[q]].mode;
    && (!IsDir(m) ==> r == Stopped(-ENOTDIR))
    && (IsDir(m) && !Bit(m, 6) ==> r == Stopped(-EACCES))
    && (IsDir(m) && Bit(m, 6) && q + [name] !in t.at ==>
          r == if last then NoEntry(Ram(t.at[q]), name) else Stopped(-ENOENT))
    && (IsDir(m) && Bit(m, 6) && q + [name] in t.at && IsLnk(st.inodes[t.at[q + [name]]].mode) ==>
          r == Stopped(-EINVAL))
  }

  /** A walk that passes its first `k` components and not the next one ends as that one says.
      With WalkIsTree, which is about walks that pass all of them, this covers every path. */
  lemma {:induction false} WalkStopsAt(st: State, disk: Disk, t: Names, p: Path, comps: Path, k: nat)
    requires Tree(st, t) && p in t.at && k < |comps| && Passable(st, t, p, comps[..k])
    ensures Sound(st) && OnRam(st, Ram(t.at[p]))
    ensures var q := p + comps[..k];
            && q in t.at && t.at[q] in st.inodes && (q + [comps[k]] in t.at ==> t.at[q + [comps[k]]] in st.inodes)
            && EndsAt(st, t, q, comps[k], k + 1 == |comps|, Walk(st, disk, Ram(t.at[p]), comps))
    decreases k
  {
    hide Tree;
    hide Sound;
    hide Walk;
    hide Access;
    hide Bit;
    hide FileType;
    WalkStep(st, disk, t, p, comps);
    SearchAndWrite(st.inodes[t.at[p]].mode);
    if k == 0 {
      assert p + comps[..k] == p;
    } else {
      var q := p + [comps[0]];
      assert comps[..k][1..] == comps[1..][..k - 1] && p + comps[..k] == q + comps[1..][..k - 1];
      WalkStopsAt(st, disk, t, q, comps[1..], k - 1);
    }
  }

  // --- What a lookup answers ------------------------------------------------------------------

  /** A path that is there and can be passed: the permissions of the node, then its type, then
      exclusive creation. */
  lemma FoundAnswer(st: State, disk: Disk, t: Names, comps: Path, oflag: nat, mode: Mode)
    requires Tree(st, t) && comps in t.at && Passable(st, t, [], comps)
    ensures Sound(st) && t.at[comps] in st.inodes
    ensures var m := st.inodes[t.at[comps]].mode;
            Decide(st, disk, comps, oflag, mode) ==
              if !Permits(m, oflag) then Fail(-EACCES)
              else if mode / 0x1000 == m / 0x1000 then
                if Bit(oflag, 6) && Bit(oflag, 7) then Fail(-EEXIST) else Existing(Ram(t.at[comps]))
              else if mode / 0x1000 == 4 then Fail(-ENOTDIR)
              else if m / 0x1000 == 4 then Fail(-EISDIR)
              else Fail(-EACCES)
  {
    hide Tree;
    hide Sound;
    hide Walk;
    hide Access;
    hide Bit;
    hide Permits;
    hide Passable;
    LookupIsTree(st, disk, t, comps);
    InodeInTree(st, t, comps);
    AccessModeBits(st.inodes[t.at[comps]].mode, oflag);
    Flags(oflag);
  }

  /** A path whose last name alone is missing. */
  lemma MissingAnswer(st: State, disk: Disk, t: Names, comps: Path, oflag: nat, mode: Mode)
    requires Tree(st, t) && comps != [] && comps !in t.at && Up(comps) in t.at && Passable(st, t, [], Up(comps))
    ensures Sound(st) && t.at[Up(comps)] in st.inodes
    ensures var d := t.at[Up(comps)];
            var m := st.inodes[d].mode;
            Decide(st, disk, comps, oflag, mode) ==
              if m / 0x1000 != 4 then Fail(-ENOTDIR)
              else if !Bit(m, 6) then Fail(-EACCES)
              else if !Bit(oflag, 6) then Fail(-ENOENT)
              else if !Bit(m, 7) then Fail(-EACCES)
              else if |Last(comps)| > 13 then Fail(-ENAMETOOLONG)
              else if st.free < 2 then Fail(-ENOMEM)
              else Create(d, Last(comps))
  {
    hide Tree;
    hide Sound;
    hide Walk;
    hide Access;
    hide Bit;
    hide Passable;
    RootInTree(st, t);
    var k := |comps| - 1;
    assert comps[..k] == Up(comps) && [] + comps[..k] == Up(comps) && Up(comps) + [comps[k]] == comps;
    WalkStopsAt(st, disk, t, [], comps, k);
    SearchAndWrite(st.inodes[t.at[Up(comps)]].mode);
    Flags(oflag);
  }

  /** sys_mkdir and sys_mknod make a name exactly when it is missing, its parent is there, can be
      reached, searched and written, the name is short enough and two buffers are left. */
  lemma CreatesIff(st: State, disk: Disk, t: Names, comps: Path, mode: Mode)
    requires Tree(st, t)
    ensures Sound(st)
    ensures Decide(st, disk, comps, O_CREAT_EXCL, mode).Create? <==>
              && comps != [] && comps !in t.at && Up(comps) in t.at && t.at[Up(comps)] in st.inodes
              && Passable(st, t, [], Up(comps)) && IsDir(st.inodes[t.at[Up(comps)]].mode)
              && Bit(st.inodes[t.at[Up(comps)]].mode, 6) && Bit(st.inodes[t.at[Up(comps)]].mode, 7)
              && |Last(comps)| <= 13 && st.free >= 2
  {
    hide Tree;
    hide Sound;
    hide Walk;
    hide Access;
    hide Bit;
    Flags(O_CREAT_EXCL);
    SoundOf(st, t);
    LookupIsTree(st, disk, t, comps);
    if comps != [] && comps !in t.at && Up(comps) in t.at {
      if Passable(st, t, [], Up(comps)) {
        MissingAnswer(st, disk, t, comps, O_CREAT_EXCL, mode);
      } else {
        NotPassed(st, disk, t, comps);
      }
    }
  }

  /** A walk that lacks only the last name has passed all others. */
  lemma NotPassed(st: State, disk: Disk, t: Names, comps: Path)
    requires Tree(st, t) && comps != [] && !Passable(st, t, [], Up(comps))
    ensures Sound(st) && OnRam(st, Ram(st.root)) && !Walk(st, disk, Ram(st.root), comps).NoEntry?
  {
    hide Tree;
    hide Sound;
    hide Walk;
    hide Bit;
    RootInTree(st, t);
    PassedAllButLast(st, disk, t, [], comps);
  }

  lemma {:induction false} PassedAllButLast(st: State, disk: Disk, t: Names, p: Path, comps: Path)
    requires Tree(st, t) && p in t.at && comps != []
    ensures Sound(st) && OnRam(st, Ram(t.at[p]))
    ensures Walk(st, disk, Ram(t.at[p]), comps).NoEntry? ==> Passable(st, t, p, Up(comps))
    decreases |comps|
  {
    hide Tree;
    hide Sound;
    hide Walk;
    hide Access;
    hide Bit;
    hide FileType;
    WalkStep(st, disk, t, p, comps);
    SearchAndWrite(st.inodes[t.at[p]].mode);
    var q := p + [comps[0]];
    if |comps| == 1 {
      assert Up(comps) == [];
    } else if q in t.at {
      InodeInTree(st, t, q);
      assert Up(comps)[0] == comps[0] && Up(comps)[1..] == Up(comps[1..]);
      PassedAllButLast(st, disk, t, q, comps[1..]);
    }
  }

  /** sys_chdir accepts a path exactly when it leads, through directories that can be searched,
      to a directory that can be searched. */
  lemma ChdirIff(st: State, disk: Disk, t: Names, comps: Path)
    requires Tree(st, t)
    ensures Sound(st)
    ensures Decide(st, disk, comps, 3, 0x4000).Existing? <==>
              && comps in t.at && t.at[comps] in st.inodes && Passable(st, t, [], comps)
              && IsDir(st.inodes[t.at[comps]].mode) && Bit(st.inodes[t.at[comps]].mode, 6)
  {
    hide Tree;
    hide Sound;
    hide Walk;
    hide Access;
    hide Bit;
    hide Passable;
    SoundOf(st, t);
    LookupIsTree(st, disk, t, comps);
    if comps in t.at && Passable(st, t, [], comps) {
      Flags(3);
      FoundAnswer(st, disk, t, comps, 3, 0x4000);
    }
  }

  // --- The mounted volume ---------------------------------------------------------------------

  /** From the file `f` of the volume the names lead to `file`, through directories. */
  predicate OnVolume(disk: Disk, f: FatFile, comps: Path, file: FatFile)
    decreases |comps|
  {
    if comps == [] then file == f
    else
      && f.isDir && disk(f.cluster, comps[0]).Present?
      && OnVolume(disk, disk(f.cluster, comps[0]).file, comps[1..], file)
  }

  /** One step of a walk on the volume. */
  lemma VolumeStep(st: State, disk: Disk, f: FatFile, comps: Path)
    requires Sound(st) && comps != []
    ensures Walk(st, disk, Fat(f), comps) ==
              if !f.isDir then Stopped(-ENOTDIR)
              else
                match disk(f.cluster, comps[0])
                case Missing(code) =>
                  var n: int := code;
                  if n == ENOENT && |comps| == 1 then NoEntry(Fat(f), comps[0]) else Stopped(-n)
                case Present(g) => if st.free < 4 then Stopped(-ENOMEM) else Walk(st, disk, Fat(g), comps[1..])
  {
    hide Sound;
    hide Bit;
    hide Access;
    hide FileType;
    hide FatMode;
    FatModeDigits(f);
    SearchAndWrite(FatMode(f));
    if f.isDir && disk(f.cluster, comps[0]).Present? {
      FatModeDigits(disk(f.cluster, comps[0]).file);
    }
  }

  /** With buffers for two inodes a walk on the volume ends at a file exactly when the names lead
      there. */
  lemma {:induction false} VolumeWalk(st: State, disk: Disk, f: FatFile, comps: Path, file: FatFile)
    requires Sound(st) && st.free >= 4
    ensures Walk(st, disk, Fat(f), comps) == Reached(Fat(file)) <==> OnVolume(disk, f, comps, file)
    decreases |comps|
  {
    hide Sound;
    hide Walk;
    if comps == [] {
      WalkNowhere(st, disk, Fat(f));
    } else {
      VolumeStep(st, disk, f, comps);
      if f.isDir && disk(f.cluster, comps[0]).Present? {
        VolumeWalk(st, disk, disk(f.cluster, comps[0]).file, comps[1..], file);
      }
    }
  }

  /** A directory that something is mounted on. */
  predicate IsMountPoint(st: State, i: nat)
  {
    && OnRam(st, Ram(i)) && IsDir(st.inodes[i].mode) && Mounted(st.inodes[i].mode) && st.inodes[i].mount.Some?
    && st.inodes[i].mount.value in st.inodes && IsDir(st.inodes[st.inodes[i].mount.value].mode)
    && st.inodes[st.inodes[i].mount.value].info.Some?
  }

  /** From a mount point that can be searched, names lead where they lead from the mounted
      directory, whatever entries the mount point has of its own. */
  lemma MountPointWalk(st: State, disk: Disk, i: nat, root: FatFile, comps: Path, file: FatFile)
    requires Sound(st) && st.free >= 4 && comps != [] && IsMountPoint(st, i) && Bit(st.inodes[i].mode, 6)
    requires root.isDir && root.cluster == st.inodes[st.inodes[i].mount.value].info.value.0
    ensures Walk(st, disk, Ram(i), comps) == Reached(Fat(file)) <==> OnVolume(disk, root, comps, file)
  {
    hide Sound;
    hide Bit;
    hide Access;
    hide FileType;
    hide FatMode;
    SearchAndWrite(st.inodes[i].mode);
    if disk(root.cluster, comps[0]).Present? {
      FatModeDigits(disk(root.cluster, comps[0]).file);
      VolumeWalk(st, disk, disk(root.cluster, comps[0]).file, comps[1..], file);
    }
  }

  /** Nothing is created on the volume; what is refused is the permission of a read-only
      directory, or else the volume. */
  lemma VolumeIsReadOnly(st: State, f: FatFile, name: string, oflag: nat)
    ensures MayCreate(st, Fat(f), name, oflag) ==
              Fail(if !Bit(oflag, 6) then -ENOENT else if f.readOnly then -EACCES else -EROFS)
  {
    hide Bit;
    hide Access;
    hide FatMode;
    Flags(oflag);
    FatModeDigits(f);
    SearchAndWrite(FatMode(f));
  }

  // --- What the changes are ---------------------------------------------------------------------

  /** The inodes of the first state, but for `i` and the new `p`, are those of the second. */
  predicate OthersSame(st: State, st': State, i: nat, p: nat)
  {
    && st'.root == st.root && st'.free == st.free - 2 && st'.inodes.Keys == st.inodes.Keys + {p}
    && forall j :: j in st.inodes && j != i ==> st'.inodes[j] == st.inodes[j]
  }

  lemma AddChildEffect(st: State, dir: nat, name: string, p: nat, mode: Mode, mtime: nat, count: nat)
    requires dir in st.inodes && st.free >= 2 && p !in st.inodes
    ensures var st' := AddChild(st, dir, name, p, mode, mtime, count);
            var d, d', c := st.inodes[dir], st'.inodes[dir], st'.inodes[p];
            && OthersSame(st, st', dir, p)
            && d'.entries[..|d'.entries| - 1] == d.entries && d' == d.(entries := d'.entries)
            && d'.entries[|d.entries|].name == name && d'.entries[|d.entries|].child == p
            && c.op == RamFs && c.count == count && c.mode == mode && c.mtime == mtime && c.device == 0
            && c.entries == [] && c.mount.None? && c.info.None?
  {
  }

  /** The sticky bit, which marks mount points, is bit 9. */
  lemma SetMountedBits(m: Mode, k: nat)
    ensures Bit(FsRuns.SetMounted(m), k) <==> k == 9 || Bit(m, k)
  {
    MountedBit(m);
    if !Mounted(m) {
      Powers();
      SetBit(m, 9, k);
    }
  }

  lemma MountedBit(m: Mode)
    ensures Mounted(m) <==> Bit(m, 9)
  {
    hide Bit;
    BySix(m, 3);
    ByThree(m / 0x40, 0);
    Lowest(m / 0x40 / 8);
    assert m / 0x40 / 8 == m / 0x200;
  }

  /** The mount point keeps all but the mark and the mounted root, which is a directory of the
      volume that its owner may search and write, at the cluster that stands for the root. */
  lemma MountEffect(st: State, dir: nat, p: nat, mtime: nat, k: nat)
    requires dir in st.inodes && st.free >= 2 && p !in st.inodes
    ensures var st' := FsRuns.Mount(st, dir, p, mtime);
            var d, d', c := st.inodes[dir], st'.inodes[dir], st'.inodes[p];
            && OthersSame(st, st', dir, p)
            && d' == d.(mode := d'.mode, mount := Some(p)) && (Bit(d'.mode, k) <==> k == 9 || Bit(d.mode, k))
            && c == INode(FatFs, 1, 0x41ED, mtime, 0, [], None, Some((0x0FFF_FFF8, 0)))
  {
    hide Bit;
    SetMountedBits(st.inodes[dir].mode, k);
    hide FsRuns.SetMounted;
  }

  /** Finding a file of the volume makes an inode for it, with its cluster, size and time. */
  lemma VolumeInodeEffect(st: State, p: nat, f: FatFile)
    requires st.free >= 2 && p !in st.inodes
    ensures var st' := With(st, Fat(f), p);
            var c := st'.inodes[p];
            && OthersSame(st, st', p, p)
            && c.op == FatFs && c.count == 1 && c.mtime == f.mtime && c.info == Some((f.cluster, f.size))
            && c.entries == [] && c.mount.None?
            && c.mode == (if f.isDir then 0x4000 else 0x8000) + (if f.readOnly then 0x16D else 0x1ED)
  {
  }

  lemma DeviceEffect(st: State, i: nat, device: nat)
    requires i in st.inodes
    ensures var st' := FsRuns.WithDevice(st, i, device);
            && st'.root == st.root && st'.free == st.free && st'.inodes.Keys == st.inodes.Keys
            && st'.inodes[i].device == device && st'.inodes[i].(device := 0) == st.inodes[i].(device := 0)
            && forall j :: j in st.inodes && j != i ==> st'.inodes[j] == st.inodes[j]
  {
  }
}
