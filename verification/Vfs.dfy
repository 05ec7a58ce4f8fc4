/**
 The filesystem calls as they run on the buffer cache: kmalloc_buf_alloc and _free
 (os/kmalloc.c), inode_alloc, inode_deref and inode_lookup (os/inode.c), ramfs_lookup and
 ramfs_mknod (os/fs/ram/ramfs.c), and the lookup and mount of os/fs/fat/fatfs.c.
 */
module Vfs {
  import opened Options
  import opened Bits
  import opened CString
  import opened Errno
  import opened PathSpec
  import opened PathBuffer
  import opened Queues
  import opened FsSpec
  import opened FsModes
  import opened FsPool
  import FsRuns
  import OpenFiles
  import DirReads
  import Fat

  /** rwxrwxr-x, directory. */
  const ROOT_MODE: Mode := 0x41FD

  const O_EXEC := 3
  const S_IFDIR := 0x4000
  const DIRENT_SIZE := 27

  /** A struct dirent as a directory read fills it in. */
  datatype Record = Record(ino: nat, mtime: nat, mode: Mode, kind: nat, name: string)

  function RecordOf(st: State, e: Entry): Record
    requires e.child in st.inodes
  {
    var n := st.inodes[e.child];
    Record(if IsDevice(n.mode) then n.device else 0, n.mtime, n.mode, FileType(n.mode), e.name)
  }

  /** A record has the entry's name, and the mode, its type, the time and, for devices alone, the
      number of the inode. */
  lemma RecordFields(st: State, e: Entry)
    requires e.child in st.inodes
    ensures var n, r := st.inodes[e.child], RecordOf(st, e);
            && r.name == e.name && r.mode == n.mode && r.kind == n.mode / 0x1000 && r.mtime == n.mtime
            && r.ino == if n.mode / 0x1000 in {2, 6} then n.device else 0
  {
  }

  /** Record `k` of the output is that of the `k`-th entry behind the position. */
  predicate Shows(st: State, es: seq<Entry>, posn: nat, out: seq<Record>, k: nat)
  {
    && posn + k < |es| && k < |out| && es[posn + k].child in st.inodes
    && out[k] == RecordOf(st, es[posn + k])
  }

  /** The outcome of looking a path up, for a caller that gets 0 for every success. */
  ghost predicate LookedUp(st: State, st': State, d: Decision, mode: Mode, mtime: nat, want: bool,
                           r: int, out: Ptr, p: nat)
    requires d.Create? ==> d.dir in st.inodes && st.free >= 2
  {
    match d
    case Fail(code) => r == code && out.None? && st' == st
    case Existing(node) =>
      && r == 0 && CanHold(st, node, p)
      && (if want then out == Some(p) && st' == With(st, node, p) else out.None? && st' == st)
    case Create(dir, name) =>
      && r == 0 && p !in st.inodes && out == (if want then Some(p) else None)
      && st' == AddChild(st, dir, name, p, mode, mtime, if want then 2 else 1)
  }

  /** The outcome of creating exclusively: one new entry, or nothing. */
  ghost predicate Made(st: State, st': State, d: Decision, mode: Mode, mtime: nat, r: int, p: nat)
    requires d.Create? ==> d.dir in st.inodes && st.free >= 2
  {
    if d.Create? then r == 0 && p !in st.inodes && st' == AddChild(st, d.dir, d.name, p, mode, mtime, 1)
    else d.Fail? && r == d.code && st' == st
  }

  ghost predicate MadeDevice(st: State, st': State, d: Decision, mode: Mode, device: nat, mtime: nat, r: int, p: nat)
    requires d.Create? ==> d.dir in st.inodes && st.free >= 2
  {
    if d.Create? then
      r == 0 && p !in st.inodes && st' == FsRuns.WithDevice(AddChild(st, d.dir, d.name, p, mode, mtime, 1), p, device)
    else d.Fail? && r == d.code && st' == st
  }

  /** S_IFDIR and the permission bits that the umask leaves. */
  function DirMode(mode: Mode, umask: nat): Mode { S_IFDIR + AndNot(mode % 0x200, umask) }

  /** The result is a directory, and of the nine permission bits it has those that are asked for
      and not masked. */
  lemma DirModeBits(mode: Mode, umask: nat, k: nat)
    ensures Bit(DirMode(mode, umask), k) <==> k == 14 || (k < 9 && Bit(mode, k) && !Bit(umask, k))
  {
    hide Bit;
    hide Pow2;
    hide AndNot;
    var q, low := mode / 0x200, mode % 0x200;
    var x := AndNot(low, umask);
    Powers();
    AndNotBits(low, umask, k);
    BitOfSum(q, low, 9, k);
    BitOfSum(1, x, 14, k);
    if k >= 9 { NoBitAbove(low, 9, k); }
    if k >= 14 { OneBit(k - 14); }
  }

  lemma OneBit(k: nat)
    ensures Bit(1, k) <==> k == 0
  {
    if k > 0 { NoBits(k - 1); }
  }

  /** The outcome of sys_mount on what the lookup of its target decided. */
  ghost predicate MountedOn(st: State, st': State, d: Decision, remount: bool, cardPresent: bool, mtime: nat,
                            r: int, p: nat)
    requires d.Existing? ==> OnRam(st, d.node)
  {
    match d
    case Fail(code) => r == code && st' == st
    case Create(_, _) => false
    case Existing(Fat(_)) => r == -EINVAL && st' == st
    case Existing(Ram(i)) =>
      if !IsDir(st.inodes[i].mode) then r == -ENOTDIR && st' == st
      else if Mounted(st.inodes[i].mode) then r == (if remount then 0 else -EBUSY) && st' == st
      else if st.free < 2 then r == -ENOMEM && st' == st
      else r == (if cardPresent then 0 else 1) && p !in st.inodes && st' == FsRuns.Mount(st, i, p, mtime)
  }

  /** No inode with names below it, or something mounted on it, is at its last reference. */
  predicate MayDrop(st: State, i: nat)
  {
    i in st.inodes && (st.inodes[i].count <= 1 ==> st.inodes[i].entries == [] && st.inodes[i].mount.None?)
  }

  // --- Walking along a path -------------------------------------------------------------------

  lemma {:induction false} TailConcat(a: seq<string>, b: seq<string>)
    ensures Tail(a + b) == Tail(a) + Tail(b)
    decreases |b|
  {
    if b == [] {
      assert a + b == a;
      assert Tail(b) == "";
    } else {
      hide Tail;
      var c, d := b[..|b| - 1], b[|b| - 1];
      TailConcat(a, c);
      TailPush(a + c, d);
      TailPush(c, d);
      SplitLast(a, b);
      Regrouped(Tail(a), Tail(c), d);
    }
  }

  lemma SplitLast(a: seq<string>, b: seq<string>)
    requires b != []
    ensures b == b[..|b| - 1] + [b[|b| - 1]] && a + b == a + b[..|b| - 1] + [b[|b| - 1]]
  {
  }

  lemma Regrouped(x: string, y: string, z: string)
    ensures x + y + "/" + z == x + (y + "/" + z)
  {
  }

  lemma SplitPath(comps: seq<string>, k: nat)
    requires k < |comps|
    ensures Render(comps) == Tail(comps[..k]) + "/" + comps[k] + Tail(comps[k + 1..])
    ensures |Tail(comps[..k + 1])| == |Tail(comps[..k])| + 1 + |comps[k]|
  {
    assert comps[..k + 1] == comps[..k] + [comps[k]];
    TailPush(comps[..k], comps[k]);
    assert comps == comps[..k + 1] + comps[k + 1..];
    TailConcat(comps[..k + 1], comps[k + 1..]);
    hide Tail;
  }

  /** Where the components of a canonical path are. */
  function PosOf(comps: seq<string>, k: nat): nat
    requires k <= |comps|
  {
    |Tail(comps[..k])| + 1
  }

  lemma ComponentAt(comps: seq<string>, k: nat)
    requires GoodStack(comps) && k < |comps|
    ensures var path, p, n := Render(comps), PosOf(comps, k), |comps[k]|;
            && n > 0 && p + n <= |path| && path[p..p + n] == comps[k] && At(path, p) != NUL
            && Min(ComponentLength(path[p..]), |path|) == n
            && (p + n == |path| <==> k + 1 == |comps|)
            && (k + 1 < |comps| ==> PosOf(comps, k + 1) == p + n + 1)
  {
    var path, p, c := Render(comps), PosOf(comps, k), comps[k];
    var rest := comps[k + 1..];
    SplitPath(comps, k);
    TailStart(rest);
    hide Tail;
    hide Render;
    assert path[p..] == c + Tail(rest);
    assert path[p..][..|c|] == c == path[p..p + |c|];
    assert At(path, p) == c[0];
    ComponentLengthBound(path[p..], |c|);
    if rest != [] {
      assert path[p..][|c|] == '/';
      ComponentEnds(path[p..], |c|);
    }
  }

  lemma {:induction false} ComponentEnds(s: string, n: nat)
    requires n < |s| && s[n] == '/'
    ensures ComponentLength(s) <= n
  {
    if n > 0 && s[0] != '/' {
      ComponentEnds(s[1..], n - 1);
    }
  }

  lemma {:induction false} TailStart(s: seq<string>)
    ensures s == [] ==> Tail(s) == ""
    ensures s != [] ==> |Tail(s)| > 0 && Tail(s)[0] == '/'
    decreases |s|
  {
    if |s| > 1 {
      TailStart(s[..|s| - 1]);
    }
  }

  // --- Holding a node -------------------------------------------------------------------------

  /** What the next name leads to does not depend on the reference that the walk holds. */
  lemma ChildWhileHeld(st: State, disk: Disk, node: Node, p: nat, name: string)
    requires Sound(st) && CanHold(st, node, p) && Sound(With(st, node, p))
    ensures var st' := With(st, node, p);
            && p in st'.inodes && ModeOf(st, node) == st'.inodes[p].mode && st'.inodes[p].op.RamFs? == node.Ram?
            && ChildOf(st, disk, node, name) ==
                 (if node.Ram? then RamChild(st', disk, p, name)
                  else FatChild(disk, st'.free, st'.inodes[p].mode, node.file.cluster, name))
  {
    if node.Ram? {
      assert InodeOk(st, p);
      assert st.inodes[p].mount.Some? ==> InodeOk(st, st.inodes[p].mount.value);
    }
  }

  lemma HeldMayDrop(st: State, node: Node, p: nat)
    requires Sound(st) && CanHold(st, node, p)
    ensures MayDrop(With(st, node, p), p) && Unref(With(st, node, p), p) == st
  {
    UnrefWith(st, node, p);
    assert p in st.inodes ==> InodeOk(st, p);
  }

  lemma HeldParentMayDrop(st: State, node: Node, p: nat, next: Node, q: nat)
    requires Sound(st) && CanHold(st, node, p) && CanHold(With(st, node, p), next, q) && (next.Ram? ==> q in st.inodes)
    ensures CanHold(st, next, q)
    ensures MayDrop(With(With(st, node, p), next, q), p)
    ensures Unref(With(With(st, node, p), next, q), p) == With(st, next, q)
  {
    UnrefParent(st, node, p, next, q);
    assert p in st.inodes ==> InodeOk(st, p);
  }

  class Vfs {
    const pool: array<Buf>
    var free: Ptr
    var root: nat
    ghost var w: Wit
    ghost var st: State
    ghost var loose: set<nat>

    ghost predicate Valid()
      reads this, pool
    {
      Repr(pool[..], free, w, st, loose) && st.root == root
    }

    // --- The buffer cache ------------------------------------------------------------------

    /** kmalloc_buf_alloc. */
    method BufAlloc() returns (p: Ptr)
      requires Valid()
      modifies this`free, this`w, this`st, this`loose, pool
      ensures Valid()
      ensures p.None? <==> old(st).free == 0
      ensures p.None? ==> st == old(st) && loose == old(loose) && pool[..] == old(pool[..])
      ensures p.Some? ==>
                && st == SetFree(old(st), old(st).free - 1) && loose == old(loose) + {p.value} && p.value !in old(loose)
                && p.value < pool.Length && p.value !in st.inodes && pool[p.value] == Zeroed
                && forall q :: 0 <= q < pool.Length && q != p.value ==> pool[q] == old(pool[q])
    {
      hide FreeAt;
      hide InodePart;
      hide CoverPart;
      p := free;
      if p.Some? {
        var buf := p.value;
        PopFree(pool[..], free, w, st, loose, buf);
        free := pool[buf].next;
        w := w.(list := w.list[1..]);
        st := SetFree(st, st.free - 1);
        loose := loose + {buf};
        WriteLoose(pool[..], free, w, st, loose, buf, Zeroed);
        ghost var now := pool[..];
        pool[buf] := Zeroed;
        assert pool[..] == now[buf := Zeroed];
      }
    }

    /** kmalloc_buf_free; NULL is ignored. */
    method BufFree(p: Ptr)
      requires Valid() && (p.Some? ==> p.value in loose && p.value < pool.Length)
      modifies this`free, this`w, this`st, this`loose, pool
      ensures Valid()
      ensures p.None? ==> st == old(st) && loose == old(loose) && pool[..] == old(pool[..])
      ensures p.Some? ==>
                && st == SetFree(old(st), old(st).free + 1) && loose == old(loose) - {p.value}
                && forall q :: 0 <= q < pool.Length && q != p.value ==> pool[q] == old(pool[q])
    {
      hide Repr;
      if p.Some? {
        var buf := p.value;
        WriteLoose(pool[..], free, w, st, loose, buf, FreeBuf(free));
        ghost var now := pool[..];
        pool[buf] := FreeBuf(free);
        assert pool[..] == now[buf := FreeBuf(free)];
        PushFree(pool[..], free, w, st, loose, buf);
        free := Some(buf);
        w := w.(list := [buf] + w.list);
        st := SetFree(st, st.free + 1);
        loose := loose - {buf};
      }
    }

    /** Writes a buffer that is not linked yet. */
    method Fill(p: nat, b: Buf)
      requires Valid() && p in loose && p < pool.Length
      modifies pool
      ensures Valid() && pool[p] == b
      ensures forall q :: 0 <= q < pool.Length && q != p ==> pool[q] == old(pool[q])
    {
      hide Repr;
      WriteLoose(pool[..], free, w, st, loose, p, b);
      ghost var now := pool[..];
      pool[p] := b;
      assert pool[..] == now[p := b];
    }

    // --- Inodes ------------------------------------------------------------------------------

    /** What the fields of a linked inode are. */
    lemma Field(i: nat)
      requires Valid() && i in st.inodes
      ensures i < pool.Length && i !in loose && Matches(pool[i], st.inodes[i])
      ensures InfoAt(pool[..], w, loose, i, pool[i].info, st.inodes[i].info)
    {
      assert InodeAt(pool[..], w, loose, i, st.inodes[i]);
    }

    method SetFields(i: nat, b: Buf, ghost n: INode)
      requires Valid() && i in st.inodes && i < pool.Length && pool[i].InodeBuf?
      requires Matches(b, n) && b.dir == pool[i].dir && b.info == pool[i].info
      requires n.entries == st.inodes[i].entries && n.info == st.inodes[i].info
      modifies this`st, pool
      ensures Valid() && st == SetInode(old(st), i, n)
      ensures forall q :: 0 <= q < pool.Length && q != i ==> pool[q] == old(pool[q])
    {
      hide Repr;
      WriteInode(pool[..], free, w, st, loose, i, b, n);
      ghost var now := pool[..];
      pool[i] := b;
      assert pool[..] == now[i := b];
      st := SetInode(st, i, n);
    }

    /** inode_alloc. */
    method InodeAlloc(op: Op) returns (p: Ptr)
      requires Valid()
      modifies this`free, this`w, this`st, this`loose, pool
      ensures Valid()
      ensures p.None? <==> old(st).free == 0
      ensures p.None? ==> st == old(st) && loose == old(loose) && pool[..] == old(pool[..])
      ensures p.Some? ==>
                && st == SetFree(old(st), old(st).free - 1) && loose == old(loose) + {p.value} && p.value !in old(loose)
                && p.value < pool.Length && p.value !in st.inodes
                && pool[p.value] == InodeBuf(op, 1, 0, 0, 0, None, None, None)
                && forall q :: 0 <= q < pool.Length && q != p.value ==> pool[q] == old(pool[q])
    {
      hide Repr;
      p := BufAlloc();
      if p.Some? {
        Fill(p.value, InodeBuf(op, 1, 0, 0, 0, None, None, None));
      }
    }

    /** inode_ref. */
    method InodeRef(i: nat)
      requires Valid() && i in st.inodes
      modifies this`st, pool
      ensures Valid() && st == Ref(old(st), i)
      ensures forall q :: q in loose && q < pool.Length ==> pool[q] == old(pool[q])
    {
      hide Repr;
      Field(i);
      SetFields(i, pool[i].(count := pool[i].count + 1), st.inodes[i].(count := st.inodes[i].count + 1));
    }

    /** inode_deref.  An inode at zero references gives its information block and itself back. */
    method InodeDeref(i: nat)
      requires Valid() && MayDrop(st, i)
      modifies this`free, this`w, this`st, this`loose, pool
      ensures Valid() && st == Unref(old(st), i) && loose == old(loose)
      ensures forall q :: q in loose && q < pool.Length ==> pool[q] == old(pool[q])
    {
      hide Repr;
      Field(i);
      var count := pool[i].count - 1;
      if count <= 0 {
        Forsake(pool[..], free, w, st, loose, i);
        var info := pool[i].info;
        ghost var size := Size(st.inodes[i]);
        st := st.(inodes := st.inodes - {i});
        loose := loose + if info.Some? then {i, info.value} else {i};
        Fill(i, pool[i].(count := count));
        BufFree(info);
        BufFree(Some(i));
        assert loose == old(loose);
      } else {
        SetFields(i, pool[i].(count := count), st.inodes[i].(count := count));
      }
    }

    /** inode_get_root. */
    method InodeGetRoot() returns (i: nat)
      requires Valid() && root in st.inodes
      modifies this`st, pool
      ensures Valid() && i == root && st == Ref(old(st), root)
      ensures forall q :: q in loose && q < pool.Length ==> pool[q] == old(pool[q])
    {
      InodeRef(root);
      i := root;
    }
  
    // --- The mounted volume ------------------------------------------------------------------

    /** fatfs_create_inode: an inode and its information block, or neither. */
    method FatCreateInode(f: FatFile) returns (p: Ptr)
      requires Valid()
      modifies this`free, this`w, this`st, this`loose, pool
      ensures Valid() && loose == old(loose)
      ensures forall q :: q in loose && q < pool.Length ==> pool[q] == old(pool[q])
      ensures p.Some? <==> old(st).free >= 2
      ensures p.None? ==> st == old(st)
      ensures p.Some? ==> CanHold(old(st), Fat(f), p.value) && st == AddFat(old(st), p.value, f)
    {
      hide Repr;
      p := InodeAlloc(FatFs);
      if p.None? {
        return;
      }
      var i := p.value;
      var info := BufAlloc();
      if info.None? {
        ghost var n := INode(FatFs, 1, 0, 0, 0, [], None, None);
        Adopt(pool[..], free, w, st, loose, i, n, w.home, loose - {i});
        w := w.(chains := w.chains[i := []]);
        st := SetInode(st, i, n);
        loose := loose - {i};
        InodeDeref(i);
        assert st.inodes == old(st).inodes && loose == old(loose);
        return None;
      }
      Fill(info.value, InfoBuf(f.cluster, f.size));
      Fill(i, InodeBuf(FatFs, 1, FatMode(f), f.mtime, 0, None, None, info));
      Adopt(pool[..], free, w, st, loose, i, FatInode(f), w.home[info.value := (i, 0)], loose - {i, info.value});
      w := Wit(w.list, w.chains[i := []], w.home[info.value := (i, 0)]);
      st := SetInode(st, i, FatInode(f));
      loose := loose - {i, info.value};
      assert loose == old(loose);
    }

    /** fatfs_lookup; `disk` is what the volume answers. */
    method FatLookup(dir: nat, name: string, disk: Disk) returns (r: int, child: Ptr)
      requires Valid() && dir in st.inodes && st.inodes[dir].info.Some?
      modifies this`free, this`w, this`st, this`loose, pool
      ensures Valid() && loose == old(loose)
      ensures forall q :: q in loose && q < pool.Length ==> pool[q] == old(pool[q])
      ensures match FatChild(disk, old(st).free, old(st).inodes[dir].mode, old(st).inodes[dir].info.value.0, name)
              case Error(code) => r == code && st == old(st)
              case Child(node) =>
                r == 0 && child.Some? && CanHold(old(st), node, child.value) && st == With(old(st), node, child.value)
    {
      hide Repr;
      Field(dir);
      child := None;
      if !IsDir(pool[dir].mode) {
        return -ENOTDIR, None;
      }
      match disk(pool[pool[dir].info.value].cluster, name) {
        case Missing(code) =>
          var n: int := code;
          return -n, None;
        case Present(f) =>
          child := FatCreateInode(f);
          r := if child.Some? then 0 else -ENOMEM;
      }
    }

    // --- The RAM filesystem --------------------------------------------------------------------

    /** The search of ramfs_lookup: the first entry with the name. */
    method FindDirent(dir: nat, name: string) returns (d: Ptr)
      requires Valid() && dir in st.inodes
      ensures d.Some? <==> FindEntry(st.inodes[dir].entries, name).Some?
      ensures d.Some? ==>
                var es := st.inodes[dir].entries;
                && d.value < pool.Length && pool[d.value].DirentBuf?
                && pool[d.value].inode == Some(es[FindEntry(es, name).value].child)
    {
      LinkTarget(pool[..], free, w, st, loose, dir);
      hide Repr;
      ghost var ds, es := w.chains[dir], st.inodes[dir].entries;
      ghost var k := 0;
      d := pool[dir].dir;
      while d.Some?
        invariant 0 <= k <= |ds| && d == (if k < |ds| then Some(ds[k]) else None)
        invariant forall j :: 0 <= j < k ==> es[j].name != name
        decreases |ds| - k
      {
        assert DirentAt(pool[..], w, loose, dir, ds, k, es[k]);
        if pool[d.value].name == name {
          return;
        }
        d := pool[d.value].link;
        k := k + 1;
      }
    }

    /** ramfs_lookup. */
    method RamLookup(dir: nat, name: string, disk: Disk) returns (r: int, child: Ptr)
      requires Valid() && Sound(st) && OnRam(st, Ram(dir))
      modifies this`free, this`w, this`st, this`loose, pool
      ensures Valid() && loose == old(loose)
      ensures forall q :: q in loose && q < pool.Length ==> pool[q] == old(pool[q])
      ensures match RamChild(old(st), disk, dir, name)
              case Error(code) => r == code && st == old(st)
              case Child(node) =>
                r == 0 && child.Some? && CanHold(old(st), node, child.value) && st == With(old(st), node, child.value)
    {
      hide Repr;
      Field(dir);
      assert InodeOk(st, dir);
      child := None;
      if !IsDir(pool[dir].mode) {
        return -ENOTDIR, None;
      }
      if Mounted(pool[dir].mode) {
        if pool[dir].mount.Some? {
          assert InodeOk(st, pool[dir].mount.value);
          r, child := FatLookup(pool[dir].mount.value, name, disk);
          return;
        }
        return -ENOENT, None;
      }
      var d := FindDirent(dir, name);
      if d.None? {
        return -ENOENT, None;
      }
      ghost var k := FindEntry(st.inodes[dir].entries, name).value;
      assert EntryOk(st, st.inodes[dir].entries[k]);
      child := pool[d.value].inode;
      InodeRef(child.value);
      r := 0;
    }

    /** The walk to the end of the directory in ramfs_mknod: None stands for the field in the
        inode itself. */
    method LastDirent(dir: nat) returns (last: Ptr)
      requires Valid() && dir in st.inodes
      ensures dir in w.chains && dir < pool.Length && pool[dir].InodeBuf?
      ensures last == if w.chains[dir] == [] then None else Some(w.chains[dir][|w.chains[dir]| - 1])
      ensures last.Some? ==> last.value < pool.Length && last.value !in loose && pool[last.value].DirentBuf?
    {
      LinkTarget(pool[..], free, w, st, loose, dir);
      hide Repr;
      ghost var ds, es := w.chains[dir], st.inodes[dir].entries;
      ghost var k := 0;
      last := None;
      var next := pool[dir].dir;
      while next.Some?
        invariant 0 <= k <= |ds| && next == (if k < |ds| then Some(ds[k]) else None)
        invariant last == if k == 0 then None else Some(ds[k - 1])
        invariant last.Some? ==> last.value < pool.Length && last.value !in loose && pool[last.value].DirentBuf?
        decreases |ds| - k
      {
        assert DirentAt(pool[..], w, loose, dir, ds, k, es[k]);
        last := next;
        next := pool[next.value].link;
        k := k + 1;
      }
    }

    /** Links a filled entry at the end of a directory. */
    method LinkDirent(dir: nat, d: nat, ghost e: Entry)
      requires Valid() && dir in st.inodes && d in loose && d < pool.Length
      requires pool[d] == DirentBuf(e.name, Some(e.child), None)
      modifies this`w, this`st, this`loose, pool
      ensures Valid() && st == AddEntry(old(st), dir, e) && loose == old(loose) - {d}
      ensures forall q :: q in loose && q < pool.Length ==> pool[q] == old(pool[q])
    {
      hide Repr;
      Field(dir);
      var last := LastDirent(dir);
      FsPool.Append(pool[..], free, w, st, loose, dir, d, e);
      ghost var now, ds := pool[..], w.chains[dir];
      if last.None? {
        pool[dir] := pool[dir].(dir := Some(d));
      } else {
        pool[last.value] := pool[last.value].(link := Some(d));
      }
      assert pool[..] == LinkLast(now, ds, dir, d);
      w := Extend(w, dir, d);
      st := AddEntry(st, dir, e);
      loose := loose - {d};
    }

    /** ramfs_mknod: the entry at the end of the directory, with one reference to the child and
        one more if the caller wants the child; or nothing at all. */
    method RamMknod(dir: nat, name: string, mode: Mode, mtime: nat, want: bool) returns (r: int, child: Ptr)
      requires Valid() && dir in st.inodes
      modifies this`free, this`w, this`st, this`loose, pool
      ensures Valid() && loose == old(loose)
      ensures forall q :: q in loose && q < pool.Length ==> pool[q] == old(pool[q])
      ensures r == if !IsDir(old(st).inodes[dir].mode) then -ENOTDIR
                   else if |name| > RAMFS_MAX_NAME then -ENAMETOOLONG
                   else if old(st).free < 2 then -ENOMEM
                   else 0
      ensures r < 0 ==> st == old(st)
      ensures r == 0 ==>
                && child.Some? && child.value !in old(st).inodes
                && st == AddChild(old(st), dir, name, child.value, mode, mtime, if want then 2 else 1)
    {
      hide Repr;
      Field(dir);
      child := None;
      if !IsDir(pool[dir].mode) {
        return -ENOTDIR, None;
      }
      if |name| > RAMFS_MAX_NAME {
        return -ENAMETOOLONG, None;
      }
      var dirent := BufAlloc();
      if dirent.None? {
        return -ENOMEM, None;
      }
      child := InodeAlloc(RamFs);
      if child.None? {
        BufFree(dirent);
        assert st.inodes == old(st).inodes;
        return -ENOMEM, None;
      }
      var c := child.value;
      AttachChild(dir, dirent.value, c, name, mode, mtime);
      assert loose == old(loose);
      ChildAttached(old(st), dir, name, c, mode, mtime);
      if want {
        InodeRef(c);
      }
      r := 0;
    }

    /** The part of ramfs_mknod after both buffers have been allocated. */
    method AttachChild(dir: nat, d: nat, c: nat, name: string, mode: Mode, mtime: nat)
      requires Valid() && dir in st.inodes && d in loose && c in loose && d != c && d < pool.Length && c < pool.Length
      requires pool[c] == InodeBuf(RamFs, 1, 0, 0, 0, None, None, None)
      modifies this`w, this`st, this`loose, pool
      ensures Valid() && loose == old(loose) - {c} - {d} && c !in old(st).inodes
      ensures forall q :: q in loose && q < pool.Length ==> pool[q] == old(pool[q])
      ensures st == AddEntry(SetInode(old(st), c, RamInode(mode, mtime, 1)), dir, Entry(name, c))
    {
      hide Repr;
      Fill(c, pool[c].(mode := mode));
      Fill(c, pool[c].(mtime := mtime));
      Fill(d, DirentBuf(name, Some(c), None));
      Adopt(pool[..], free, w, st, loose, c, RamInode(mode, mtime, 1), w.home, loose - {c});
      w := w.(chains := w.chains[c := []]);
      st := SetInode(st, c, RamInode(mode, mtime, 1));
      loose := loose - {c};
      LinkDirent(dir, d, Entry(name, c));
    }
  
    // --- inode_lookup ------------------------------------------------------------------------

    /** node->op->lookup. */
    method OpLookup(cur: nat, name: string, disk: Disk, ghost st0: State, ghost node: Node) returns (r: int, child: Ptr)
      requires Valid() && Sound(st0) && CanHold(st0, node, cur) && st == With(st0, node, cur)
      modifies this`free, this`w, this`st, this`loose, pool
      ensures Valid() && loose == old(loose)
      ensures forall q :: q in loose && q < pool.Length ==> pool[q] == old(pool[q])
      ensures match ChildOf(st0, disk, node, name)
              case Error(code) => r == code && st == old(st)
              case Child(next) =>
                && r == 0 && child.Some? && (next.Ram? ==> child.value in st0.inodes)
                && CanHold(old(st), next, child.value) && st == With(old(st), next, child.value)
    {
      hide Repr;
      hide Sound;
      WithSound(st0, node, cur);
      ChildWhileHeld(st0, disk, node, cur, name);
      Field(cur);
      if pool[cur].op.RamFs? {
        r, child := RamLookup(cur, name, disk);
      } else {
        r, child := FatLookup(cur, name, disk);
      }
    }

    /** Gives the reference of a walk back. */
    method Leave(cur: nat, ghost st0: State, ghost node: Node)
      requires Valid() && Sound(st0) && CanHold(st0, node, cur) && st == With(st0, node, cur)
      modifies this`free, this`w, this`st, this`loose, pool
      ensures Valid() && loose == old(loose) && st == st0
      ensures forall q :: q in loose && q < pool.Length ==> pool[q] == old(pool[q])
    {
      hide Repr;
      HeldMayDrop(st0, node, cur);
      InodeDeref(cur);
    }

    /** One turn of the loop of inode_lookup: an error with every reference given back, a step
        down (0), or the last name is not there (1). */
    method WalkStep(cur: nat, name: string, isLast: bool, disk: Disk, ghost st0: State, ghost node: Node,
                    ghost rest: seq<string>)
      returns (r: int, cur': nat, ghost node': Node)
      requires Valid() && Sound(st0) && CanHold(st0, node, cur) && st == With(st0, node, cur)
      requires isLast <==> rest == []
      modifies this`free, this`w, this`st, this`loose, pool
      ensures Valid() && loose == old(loose) && CanHold(st0, node', cur') && r <= 1
      ensures forall q :: q in loose && q < pool.Length ==> pool[q] == old(pool[q])
      ensures r < 0 ==> st == st0 && Walk(st0, disk, node, [name] + rest) == Stopped(r)
      ensures r == 0 ==>
                st == With(st0, node', cur') && Walk(st0, disk, node, [name] + rest) == Walk(st0, disk, node', rest)
      ensures r == 1 ==>
                st == With(st0, node', cur') && cur' == cur && node' == node && rest == []
                && Walk(st0, disk, node, [name] + rest) == NoEntry(node, name)
    {
      hide Repr;
      hide Sound;
      hide ChildOf;
      hide FileType;
      hide Access;
      cur', node' := cur, node;
      WithSound(st0, node, cur);
      ChildWhileHeld(st0, disk, node, cur, name);
      assert ([name] + rest)[1..] == rest;
      Field(cur);
      if !IsDir(pool[cur].mode) {
        Leave(cur, st0, node);
        return -ENOTDIR, cur, node;
      }
      r := Access(pool[cur].mode, X_OK);
      if r < 0 {
        Leave(cur, st0, node);
        return;
      }
      var error, child := OpLookup(cur, name, disk, st0, node);
      ghost var found := ChildOf(st0, disk, node, name);
      if error == -ENOENT && isLast {
        return 1, cur, node;
      }
      if error < 0 {
        Leave(cur, st0, node);
        return error, cur, node;
      }
      node' := found.node;
      HeldParentMayDrop(st0, node, cur, node', child.value);
      InodeDeref(cur);
      cur' := child.value;
      r := LinkCheck(cur', st0, node');
    }

    /** Symbolic links are not supported. */
    method LinkCheck(cur: nat, ghost st0: State, ghost node: Node) returns (r: int)
      requires Valid() && Sound(st0) && CanHold(st0, node, cur) && st == With(st0, node, cur)
      modifies this`free, this`w, this`st, this`loose, pool
      ensures Valid() && loose == old(loose) && OnRam(st0, node)
      ensures forall q :: q in loose && q < pool.Length ==> pool[q] == old(pool[q])
      ensures r == if IsLnk(ModeOf(st0, node)) then -EINVAL else 0
      ensures st == if r < 0 then st0 else old(st)
    {
      hide Repr;
      hide Sound;
      Field(cur);
      if IsLnk(pool[cur].mode) {
        Leave(cur, st0, node);
        return -EINVAL;
      }
      r := 0;
    }

    /** The loop of inode_lookup.  It stops with an error and every reference given back, at
        the node of the path (0), or at the directory that lacks the last name (1). */
    method WalkPath(path: string, disk: Disk, max: nat, ghost comps: seq<string>)
      returns (r: int, cur: nat, name: string, ghost node: Node)
      requires Valid() && Sound(st) && GoodStack(comps) && path == Render(comps) && |path| < max
      modifies this`free, this`w, this`st, this`loose, pool
      ensures Valid() && loose == old(loose)
      ensures forall q :: q in loose && q < pool.Length ==> pool[q] == old(pool[q])
      ensures match Walk(old(st), disk, Ram(root), comps)
              case Stopped(code) => r == code && st == old(st)
              case Reached(n) => r == 0 && node == n && CanHold(old(st), node, cur) && st == With(old(st), node, cur)
              case NoEntry(d, last) =>
                r == 1 && name == last && node == d && CanHold(old(st), node, cur) && st == With(old(st), node, cur)
    {
      hide Repr;
      hide Walk;
      hide Tail;
      hide GoodName;
      hide ComponentLength;
      ghost var st0 := st;
      ghost var k := 0;
      name := "";
      r := 0;
      RenderIsLong(comps);
      assert comps[0..] == comps;
      cur := InodeGetRoot();
      node := Ram(root);
      assert CanHold(st0, node, cur) && st == With(st0, node, cur);
      hide With;
      var posn := 1;
      StartOfPath(comps);
      if comps != [] {
        ComponentAt(comps, 0);
      }
      while At(path, posn) != NUL
        invariant Valid() && loose == old(loose) && 0 <= k <= |comps| && posn <= |path| && r == 0
        invariant forall q :: q in loose && q < pool.Length ==> pool[q] == old(pool[q])
        invariant CanHold(st0, node, cur) && st == With(st0, node, cur)
        invariant Walk(st0, disk, Ram(root), comps) == Walk(st0, disk, node, comps[k..])
        invariant k < |comps| ==> posn == PosOf(comps, k) && At(path, posn) != NUL
        invariant k == |comps| ==> posn == |path|
        decreases |comps| - k
      {
        ComponentAt(comps, k);
        var namelen := StrlenPathComponent(path, posn, max);
        name := path[posn..posn + namelen];
        var isLast := At(path, posn + namelen) == NUL;
        assert comps[k..] == [comps[k]] + comps[k + 1..];
        r, cur, node := WalkStep(cur, name, isLast, disk, st0, node, comps[k + 1..]);
        if r != 0 {
          return;
        }
        k := k + 1;
        if isLast {
          break;
        }
        posn := posn + namelen + 1;
        ComponentAt(comps, k);
      }
      assert comps[k..] == [];
      WalkNowhere(st0, disk, node);
    }

    /** The part of inode_lookup after the walk has found a node. */
    method CheckFound(cur: nat, oflag: nat, mode: Mode, want: bool, ghost st0: State, ghost node: Node)
      returns (r: int, out: Ptr)
      requires Valid() && Sound(st0) && CanHold(st0, node, cur) && st == With(st0, node, cur)
      modifies this`free, this`w, this`st, this`loose, pool
      ensures Valid() && loose == old(loose) && OnRam(st0, node)
      ensures forall q :: q in loose && q < pool.Length ==> pool[q] == old(pool[q])
      ensures var d := Accept(st0, node, oflag, mode);
              if d.Fail? then r == d.code && out.None? && st == st0
              else r == 0 && (if want then out == Some(cur) && st == old(st) else out.None? && st == st0)
    {
      hide Repr;
      hide Sound;
      hide Access;
      Field(cur);
      out := None;
      r := Access(pool[cur].mode, AccessMode(oflag));
      if r < 0 {
        Leave(cur, st0, node);
        return;
      }
      if FileType(mode) != FileType(pool[cur].mode) {
        r := if IsDir(mode) then -ENOTDIR else if IsDir(pool[cur].mode) then -EISDIR else -EACCES;
        Leave(cur, st0, node);
        return;
      }
      if Creates(oflag) && Exclusive(oflag) {
        Leave(cur, st0, node);
        return -EEXIST, None;
      }
      r := 0;
      if want {
        out := Some(cur);
      } else {
        Leave(cur, st0, node);
      }
    }

    /** The part of inode_lookup for a last name that is not in its directory. */
    method CreateLast(cur: nat, name: string, oflag: nat, mode: Mode, mtime: nat, want: bool,
                      ghost st0: State, ghost node: Node)
      returns (r: int, out: Ptr, ghost p: nat)
      requires Valid() && Sound(st0) && CanHold(st0, node, cur) && st == With(st0, node, cur)
      requires OnRam(st0, node) && IsDir(ModeOf(st0, node))
      modifies this`free, this`w, this`st, this`loose, pool
      ensures Valid() && loose == old(loose)
      ensures forall q :: q in loose && q < pool.Length ==> pool[q] == old(pool[q])
      ensures var d := MayCreate(st0, node, name, oflag);
              if d.Fail? then r == d.code && out.None? && st == st0
              else
                && r == 1 && p !in st0.inodes && out == (if want then Some(p) else None)
                && st == AddChild(st0, d.dir, name, p, mode, mtime, if want then 2 else 1)
    {
      hide Repr;
      hide Sound;
      hide Access;
      hide FileType;
      Field(cur);
      out, p := None, 0;
      if !Creates(oflag) {
        Leave(cur, st0, node);
        return -ENOENT, None, 0;
      }
      r := Access(pool[cur].mode, W_OK);
      if r < 0 {
        Leave(cur, st0, node);
        return;
      }
      if pool[cur].op.FatFs? {
        Leave(cur, st0, node);
        return -EROFS, None, 0;
      }
      var child: Ptr;
      r, child := RamMknod(cur, name, mode, mtime, true);
      if r < 0 {
        Leave(cur, st0, node);
        return;
      }
      p := child.value;
      CreateWhileHeld(st0, cur, name, p, mode, mtime);
      InodeDeref(cur);
      r := 1;
      if want {
        out := child;
      } else {
        InodeDeref(child.value);
        assert st.inodes == AddChild(st0, cur, name, p, mode, mtime, 1).inodes;
      }
    }

    /** inode_lookup of a canonical path; `want` says whether the caller passes a place for the
        inode.  An error leaves every inode, count and free buffer as it was; success leaves
        exactly one more reference, to the inode that is returned, if any. */
    method InodeLookup(path: string, oflag: nat, mode: Mode, mtime: nat, want: bool, disk: Disk, max: nat,
                       ghost comps: seq<string>)
      returns (r: int, out: Ptr, ghost p: nat)
      requires Valid() && Sound(st) && GoodStack(comps) && path == Render(comps) && |path| < max
      modifies this`free, this`w, this`st, this`loose, pool
      ensures Valid() && loose == old(loose)
      ensures forall q :: q in loose && q < pool.Length ==> pool[q] == old(pool[q])
      ensures match Decide(old(st), disk, comps, oflag, mode)
              case Fail(code) => r == code && out.None? && st == old(st)
              case Existing(node) =>
                && r == 0 && CanHold(old(st), node, p)
                && (if want then out == Some(p) && st == With(old(st), node, p) else out.None? && st == old(st))
              case Create(dir, name) =>
                && r == 1 && p !in old(st).inodes && out == (if want then Some(p) else None)
                && st == AddChild(old(st), dir, name, p, mode, mtime, if want then 2 else 1)
    {
      hide Repr;
      hide Walk;
      hide Sound;
      var cur, name;
      ghost var node;
      ghost var st0 := st;
      p, out := 0, None;
      r, cur, name, node := WalkPath(path, disk, max, comps);
      if r < 0 {
        return;
      }
      if r == 1 {
        r, out, p := CreateLast(cur, name, oflag, mode, mtime, want, st0, node);
      } else {
        p := cur;
        r, out := CheckFound(cur, oflag, mode, want, st0, node);
      }
    }

    // --- Starting up ----------------------------------------------------------------------------

    /** kmalloc_init and ramfs_init: all buffers free but one, which is the root directory. */
    constructor (buffers: nat)
      requires buffers >= 1
      ensures Valid() && loose == {} && fresh(pool) && pool.Length == buffers
      ensures st == FsRuns.Boot(root, ROOT_MODE, 0, buffers).st && FsRuns.Inv(st, multiset{}, map[])
    {
      pool := new Buf[buffers](_ => Zeroed);
      free, root := None, 0;
      w := Wit([], map[], map[]);
      st := State(map[], 0, 0);
      loose := From(0, buffers);
      new;
      var i := 0;
      while i < buffers
        invariant 0 <= i <= buffers && Valid() && st == State(map[], 0, i)
        invariant loose == From(i, buffers)
      {
        BufFree(Some(i));
        i := i + 1;
      }
      MakeRoot();
      var b := FsRuns.Boot(root, ROOT_MODE, 0, buffers);
      assert FsRuns.Inv(b.st, b.held, b.up);
    }

    method MakeRoot()
      requires Valid() && loose == {} && st.inodes == map[] && st.free >= 1
      modifies this, pool
      ensures Valid() && loose == {}
      ensures st == State(map[root := INode(RamFs, 3, ROOT_MODE, 0, 0, [], None, None)], root, old(st).free - 1)
    {
      hide Repr;
      var p := InodeAlloc(RamFs);
      RootChange(pool[..], free, w, st, loose, p.value);
      root := p.value;
      st := st.(root := root);
      Fill(root, pool[root].(mode := ROOT_MODE));
      ghost var n := INode(RamFs, 1, ROOT_MODE, 0, 0, [], None, None);
      Adopt(pool[..], free, w, st, loose, root, n, w.home, loose - {root});
      w := w.(chains := w.chains[root := []]);
      st := SetInode(st, root, n);
      loose := loose - {root};
      InodeRef(root);
      InodeRef(root);
    }

    // --- System calls ---------------------------------------------------------------------------

    /** inode_lookup_path: resolves the path into the temporary buffer, then looks it up. */
    method InodeLookupPath(temp: array<char>, pathname: Option<string>, cwd: string, oflag: nat, mode: Mode, mtime: nat,
                           want: bool, disk: Disk, ghost stack: seq<string>)
      returns (r: int, out: Ptr, ghost p: nat)
      requires Valid() && Sound(st) && temp.Length >= 1
      requires GoodStack(stack) && cwd == Render(stack) && |cwd| < temp.Length
      requires pathname.Some? ==> IsCString(pathname.value)
      modifies this`free, this`w, this`st, this`loose, pool, temp
      ensures Valid() && loose == old(loose)
      ensures forall q :: q in loose && q < pool.Length ==> pool[q] == old(pool[q])
      ensures match PathToAbs(stack, pathname, temp.Length, temp.Length)
              case Err(code) => r == code < 0 && out.None? && st == old(st)
              case Abs(s, _) =>
                && GoodStack(s) && HoldsString(temp[..], Render(s))
                && LookedUp(old(st), st, Decide(old(st), disk, s, oflag, mode), mode, mtime, want, r, out, p)
    {
      hide Repr;
      hide Sound;
      hide Walk;
      hide Accept;
      hide MayCreate;
      hide PathToAbs;
      hide Tail;
      out, p := None, 0;
      r := InodePathToAbs(temp, temp.Length, pathname, cwd, temp.Length, stack);
      ErrorsAreNegative(stack, pathname, temp.Length, temp.Length);
      if r < 0 {
        return;
      }
      ghost var s := PathToAbs(stack, pathname, temp.Length, temp.Length).stack;
      assert temp[..temp.Length] == temp[..];
      RenderIsLong(s);
      var path := ReadString(temp, Render(s));
      r, out, p := InodeLookup(path, oflag, mode, mtime, want, disk, temp.Length, s);
      if r > 0 {
        r := 0;
      }
    }

    /** sys_chdir.  The working directory stays canonical, changes only on success, to a path at
        which the filesystem has a directory, and is never cut short.  No inode changes. */
    method SysChdir(cwd: array<char>, temp: array<char>, pathname: Option<string>, disk: Disk, ghost stack: seq<string>)
      returns (r: int)
      requires Valid() && Sound(st)
      requires cwd != temp && cwd.Length == temp.Length >= 1
      requires GoodStack(stack) && HoldsString(cwd[..], Render(stack))
      requires pathname.Some? ==> IsCString(pathname.value)
      modifies this`free, this`w, this`st, this`loose, pool, cwd, temp
      ensures Valid() && loose == old(loose) && st == old(st)
      ensures forall q :: q in loose && q < pool.Length ==> pool[q] == old(pool[q])
      ensures match PathToAbs(stack, pathname, temp.Length, temp.Length)
              case Err(code) => r == code && cwd[..] == old(cwd[..])
              case Abs(s, _) =>
                var d := Decide(st, disk, s, O_EXEC, S_IFDIR);
                if d.Fail? then r == d.code && cwd[..] == old(cwd[..])
                else d.Existing? && r == 0 && GoodStack(s) && HoldsString(cwd[..], Render(s))
    {
      hide Repr;
      hide Sound;
      hide Walk;
      hide Accept;
      hide Access;
      hide PathToAbs;
      hide Tail;
      RenderIsLong(stack);
      var here := ReadString(cwd, Render(stack));
      ghost var target := PathToAbs(stack, pathname, temp.Length, temp.Length);
      var out: Ptr;
      ghost var p;
      r, out, p := InodeLookupPath(temp, pathname, here, O_EXEC, S_IFDIR, 0, false, disk, stack);
      if r >= 0 {
        RenderIsLong(target.stack);
        var text := ReadString(temp, Render(target.stack));
        StrcpyConstrained(cwd, Some(text), cwd.Length);
        assert Truncated(Some(text), cwd.Length) == text;
      }
    }

    /** sys_mkdir.  Exactly one directory entry is added, or nothing changes. */
    method SysMkdir(temp: array<char>, pathname: Option<string>, cwd: string, mode: Mode, umask: nat, mtime: nat,
                    disk: Disk, ghost stack: seq<string>)
      returns (r: int, ghost p: nat)
      requires Valid() && Sound(st) && temp.Length >= 1
      requires GoodStack(stack) && cwd == Render(stack) && |cwd| < temp.Length
      requires pathname.Some? ==> IsCString(pathname.value)
      modifies this`free, this`w, this`st, this`loose, pool, temp
      ensures Valid() && loose == old(loose)
      ensures forall q :: q in loose && q < pool.Length ==> pool[q] == old(pool[q])
      ensures var m := DirMode(mode, umask);
              match PathToAbs(stack, pathname, temp.Length, temp.Length)
              case Err(code) => r == code && st == old(st)
              case Abs(s, _) => Made(old(st), st, Decide(old(st), disk, s, O_CREAT_EXCL, m), m, mtime, r, p)
    {
      hide Repr;
      hide Sound;
      hide Walk;
      hide MayCreate;
      hide PathToAbs;
      hide Tail;
      hide Access;
      hide DirMode;
      var m := DirMode(mode, umask);
      var inode: Ptr;
      r, inode, p := InodeLookupPath(temp, pathname, cwd, O_CREAT_EXCL, m, mtime, true, disk, stack);
      if r >= 0 {
        ghost var s := PathToAbs(stack, pathname, temp.Length, temp.Length).stack;
        ghost var d := Decide(old(st), disk, s, O_CREAT_EXCL, m);
        FsRuns.UnrefChild(old(st), d.dir, d.name, p, m, mtime);
        InodeDeref(inode.value);
      }
    }

    /** sys_mknod: a character or block device, and its number. */
    method SysMknod(temp: array<char>, pathname: Option<string>, cwd: string, mode: Mode, umask: nat, device: nat,
                    mtime: nat, disk: Disk, ghost stack: seq<string>)
      returns (r: int, ghost p: nat)
      requires Valid() && Sound(st) && temp.Length >= 1
      requires GoodStack(stack) && cwd == Render(stack) && |cwd| < temp.Length
      requires pathname.Some? ==> IsCString(pathname.value)
      modifies this`free, this`w, this`st, this`loose, pool, temp
      ensures Valid() && loose == old(loose)
      ensures forall q :: q in loose && q < pool.Length ==> pool[q] == old(pool[q])
      ensures var m := AndNot(mode, umask);
              if !IsDevice(m) || m / 0x200 % 8 != 0 then r == -EINVAL && st == old(st)
              else
                match PathToAbs(stack, pathname, temp.Length, temp.Length)
                case Err(code) => r == code && st == old(st)
                case Abs(s, _) =>
                  MadeDevice(old(st), st, Decide(old(st), disk, s, O_CREAT_EXCL, m), m, device, mtime, r, p)
    {
      hide Repr;
      hide Sound;
      hide Walk;
      hide MayCreate;
      hide PathToAbs;
      hide Tail;
      hide Access;
      hide AndNot;
      p := 0;
      var m: Mode := AndNot(mode, umask);
      if !IsDevice(m) {
        return -EINVAL, 0;
      }
      if m / 0x200 % 8 != 0 {
        return -EINVAL, 0;
      }
      var inode: Ptr;
      r, inode, p := InodeLookupPath(temp, pathname, cwd, O_CREAT_EXCL, m, mtime, true, disk, stack);
      if r >= 0 {
        ghost var s := PathToAbs(stack, pathname, temp.Length, temp.Length).stack;
        ghost var d := Decide(old(st), disk, s, O_CREAT_EXCL, m);
        var i := inode.value;
        Field(i);
        DeviceMade(old(st), d.dir, d.name, p, m, mtime, device);
        SetFields(i, pool[i].(device := device), st.inodes[i].(device := device));
        InodeDeref(i);
      }
    }

    /** fatfs_mount_sd: the root of the volume takes the place of the directory's entries, or
        nothing changes.  Detecting the card does not touch the buffer cache; the volume is
        mounted with or without a card. */
    method MountSd(dir: nat, mtime: nat, cardPresent: bool) returns (r: int, ghost p: nat)
      requires Valid() && OnRam(st, Ram(dir))
      modifies this`free, this`w, this`st, this`loose, pool
      ensures Valid() && loose == old(loose)
      ensures forall q :: q in loose && q < pool.Length ==> pool[q] == old(pool[q])
      ensures r == if old(st).free < 2 then -ENOMEM else if cardPresent then 0 else 1
      ensures r < 0 ==> st == old(st)
      ensures r >= 0 ==> p !in old(st).inodes && st == FsRuns.Mount(old(st), dir, p, mtime)
    {
      hide Repr;
      p := 0;
      var fat := FatCreateInode(FsRuns.FatRoot(mtime));
      if fat.None? {
        return -ENOMEM, 0;
      }
      p := fat.value;
      Field(dir);
      var mode := FsRuns.SetMounted(pool[dir].mode);
      SetFields(dir, pool[dir].(mode := mode, mount := fat), st.inodes[dir].(mode := mode, mount := fat));
      assert st.inodes == FsRuns.Mount(old(st), dir, p, mtime).inodes;
      r := if cardPresent then 0 else 1;
    }

    /** sys_mount: the volume is mounted on the directory that the path names, or the error of the
        case is returned and nothing changes. */
    method SysMount(temp: array<char>, source: Option<string>, kind: Option<string>, target: Option<string>,
                    cwd: string, haveSd: bool, remount: bool, mtime: nat, cardPresent: bool, disk: Disk,
                    ghost stack: seq<string>)
      returns (r: int, ghost p: nat)
      requires Valid() && Sound(st) && temp.Length >= 1
      requires GoodStack(stack) && cwd == Render(stack) && |cwd| < temp.Length
      requires target.Some? ==> IsCString(target.value)
      modifies this`free, this`w, this`st, this`loose, pool, temp
      ensures Valid() && loose == old(loose)
      ensures forall q :: q in loose && q < pool.Length ==> pool[q] == old(pool[q])
      ensures if source.None? || kind.None? then r == -EFAULT && st == old(st)
              else if source.value != "/dev/mmcblk0" || !haveSd then r == -ENOTBLK && st == old(st)
              else if kind.value != "vfat" then r == -ENODEV && st == old(st)
              else if target.None? then r == 0 && st == old(st)
              else
                match PathToAbs(stack, target, temp.Length, temp.Length)
                case Err(code) => r == code && st == old(st)
                case Abs(s, _) =>
                  MountedOn(old(st), st, Decide(old(st), disk, s, O_EXEC, S_IFDIR), remount, cardPresent, mtime, r, p)
    {
      hide Repr;
      hide Sound;
      hide Walk;
      hide Accept;
      hide Access;
      hide PathToAbs;
      hide Tail;
      hide FileType;
      ghost var st0 := st;
      p := 0;
      if source.None? || kind.None? {
        return -EFAULT, 0;
      }
      if source.value != "/dev/mmcblk0" || !haveSd {
        return -ENOTBLK, 0;
      }
      if kind.value != "vfat" {
        return -ENODEV, 0;
      }
      if target.None? {
        return 0, 0;
      }
      var dir: Ptr;
      r, dir, p := InodeLookupPath(temp, target, cwd, O_EXEC, S_IFDIR, 0, true, disk, stack);
      if r < 0 {
        return;
      }
      var i := dir.value;
      ghost var s := PathToAbs(stack, target, temp.Length, temp.Length).stack;
      ghost var node := Decide(st0, disk, s, O_EXEC, S_IFDIR).node;
      Field(i);
      if pool[i].op.FatFs? {
        Leave(i, st0, node);
        return -EINVAL, 0;
      }
      if !IsDir(pool[i].mode) {
        Leave(i, st0, node);
        return -ENOTDIR, 0;
      }
      if Mounted(pool[i].mode) {
        Leave(i, st0, node);
        return if remount then 0 else -EBUSY, 0;
      }
      r, p := MountSd(i, mtime, cardPresent);
      if r < 0 {
        Leave(i, st0, node);
        return;
      }
      MountWhileHeld(st0, i, p, mtime);
      InodeDeref(i);
    }

    // --- Opening and closing ------------------------------------------------------------------------

    /** fatfs_open of the inode `m`: a buffer for the reading position, or an error and no buffer.
        `s` is the state that the references and lent buffers of open files are counted in. */
    method FatOpen(m: nat, media: OpenFiles.Media, ghost s: FsRuns.Sys) returns (r: int, info: Ptr)
      requires Valid() && OpenFiles.Sane(s) && s.st == st && m in st.inodes && st.inodes[m].info.Some?
      modifies this`free, this`w, this`st, this`loose, pool
      ensures Valid()
      ensures forall q :: q in old(loose) && q < pool.Length ==> pool[q] == old(pool[q])
      ensures var o := OpenFiles.FatOpen(s, m, media); r == o.result && st == o.sys.st && info.Some? == o.file.info
      ensures info.None? ==> loose == old(loose)
      ensures info.Some? ==> info.value < pool.Length && info.value !in old(loose) && loose == old(loose) + {info.value}
    {
      hide Repr;
      hide FsRuns.Inv;
      hide FileType;
      Field(m);
      info := None;
      var mode, first := pool[m].mode, pool[pool[m].info.value];
      if !IsDir(mode) && FileType(mode) != 8 {
        return -EPERM, None;
      }
      if IsDir(mode) && first.cluster == Fat.END_CLUSTER && media.noCard {
        return -EIO, None;
      }
      info := BufAlloc();
      if info.None? {
        return -ENOMEM, None;
      }
      if media.badCluster {
        BufFree(info);
        assert st == old(st) && loose == old(loose);
        return -EIO, None;
      }
      Fill(info.value, InfoBuf(first.cluster, first.size));
      r := 0;
    }

    /** ramfs_open or fatfs_open of the inode `q` that the lookup returned: the inode that the file
        refers to afterwards, if any, and its buffer, if any. */
    method OpenInode(q: nat, media: OpenFiles.Media, ghost s: FsRuns.Sys) returns (r: int, ino: Ptr, info: Ptr)
      requires Valid() && OpenFiles.Sane(s) && s.st == st && q in s.held
      modifies this`free, this`w, this`st, this`loose, pool
      ensures Valid()
      ensures forall q :: q in old(loose) && q < pool.Length ==> pool[q] == old(pool[q])
      ensures var o := OpenFiles.BackEnd(s, q, media);
              r == o.result && st == o.sys.st && OpenFiles.OpenFile(ino, info.Some?) == o.file
      ensures info.None? ==> loose == old(loose)
      ensures info.Some? ==> info.value < pool.Length && info.value !in old(loose) && loose == old(loose) + {info.value}
    {
      hide Repr;
      hide FsRuns.Inv;
      hide FileType;
      hide OpenFiles.FatOpen;
      HeldInode(s, q);
      Field(q);
      info := None;
      var mode := pool[q].mode;
      if pool[q].op.FatFs? {
        r, info := FatOpen(q, media, s);
        return r, Some(q), info;
      }
      if IsDir(mode) && Mounted(mode) {
        ghost var s1 := FsRuns.Apply(s, FsRuns.Exchange(q));
        Exchanged(s, q);
        var m := pool[q].mount.value;
        InodeRef(m);
        InodeDeref(q);
        r, info := FatOpen(m, media, s1);
        return r, Some(m), info;
      }
      if IsDir(mode) || FileType(mode) == 8 {
        return 0, Some(q), None;
      }
      if FileType(mode) == 2 {
        InodeDeref(q);
        return media.device, None, None;
      }
      return -EACCES, Some(q), None;
    }

    /** The close handlers: the buffer of the file goes back, and then its reference. */
    method CloseFile(ino: Ptr, info: Ptr, ghost s: FsRuns.Sys)
      requires Valid() && OpenFiles.Sane(s) && s.st == st && (ino.Some? ==> ino.value in s.held)
      requires info.Some? ==> info.value in loose && info.value < pool.Length && s.lent >= 1
      modifies this`free, this`w, this`st, this`loose, pool
      ensures Valid() && st == OpenFiles.CloseFile(s, OpenFiles.OpenFile(ino, info.Some?)).st
      ensures loose == if info.Some? then old(loose) - {info.value} else old(loose)
      ensures forall q :: q in loose && q < pool.Length ==> pool[q] == old(pool[q])
    {
      hide Repr;
      hide FsRuns.Inv;
      if ino.Some? {
        HeldInode(s, ino.value);
      }
      BufFree(info);
      if ino.Some? {
        InodeDeref(ino.value);
      }
    }

    // --- Reading a directory -----------------------------------------------------------------------

    /** ramfs_dir_read: the entries from the position on, as many as are there and as fit, and
        the position behind them. */
    method DirRead(dir: nat, posn: nat, out: array<Record>, size: nat) returns (result: nat, posn': nat)
      requires Valid() && Sound(st) && dir in st.inodes && pool.Length < 0x1_0000
      requires posn <= |st.inodes[dir].entries| && size / DIRENT_SIZE <= out.Length
      modifies out
      ensures var b := DirReads.Batch(st.inodes[dir].entries, posn, size / DIRENT_SIZE);
              && result == |b| * DIRENT_SIZE && posn' == posn + |b|
              && (forall k :: 0 <= k < |b| ==> b[k].child in st.inodes && out[k] == RecordOf(st, b[k]))
              && (forall k :: |b| <= k < out.Length ==> out[k] == old(out[k]))
    {
      hide Repr;
      hide Sound;
      hide RecordOf;
      var entry := SeekDirent(dir, posn);
      LinkTarget(pool[..], free, w, st, loose, dir);
      ghost var ds, es := w.chains[dir], st.inodes[dir].entries;
      var left, count := size, 0;
      result := 0;
      while entry.Some? && left >= DIRENT_SIZE
        invariant count <= |es| - posn && count <= size / DIRENT_SIZE
        invariant result == count * DIRENT_SIZE && left == size - result
        invariant entry == (if posn + count < |ds| then Some(ds[posn + count]) else None)
        invariant forall k :: 0 <= k < count ==> Shows(st, es, posn, out[..], k)
        invariant forall k :: count <= k < out.Length ==> out[k] == old(out[k])
        decreases left
      {
        ghost var e := es[posn + count];
        assert DirentAt(pool[..], w, loose, dir, ds, posn + count, e);
        ChildIsInode(st, dir, posn + count);
        var dirent := pool[entry.value];
        var rec := MakeRecord(dirent.name, dirent.inode.value);
        ghost var before := out[..];
        out[count] := rec;
        forall k | 0 <= k <= count ensures Shows(st, es, posn, out[..], k) {
          assert k < count ==> Shows(st, es, posn, before, k);
        }
        result := result + DIRENT_SIZE;
        left := left - DIRENT_SIZE;
        entry := dirent.link;
        count := count + 1;
      }
      posn' := posn + count;
      ghost var b := DirReads.Batch(es, posn, size / DIRENT_SIZE);
      forall k | 0 <= k < |b| ensures b[k].child in st.inodes && out[k] == RecordOf(st, b[k]) {
        assert Shows(st, es, posn, out[..], k);
      }
    }

    /** What a directory read says about one entry. */
    method MakeRecord(name: string, i: nat) returns (rec: Record)
      requires Valid() && i in st.inodes
      ensures rec == RecordOf(st, Entry(name, i))
    {
      hide Repr;
      Field(i);
      var inode := pool[i];
      var ino := if IsDevice(inode.mode) then inode.device else 0;
      rec := Record(ino, inode.mtime, inode.mode, FileType(inode.mode), name);
    }

    /** Seeks from the beginning; the position is cut to 16 bits first. */
    method SeekDirent(dir: nat, posn: nat) returns (entry: Ptr)
      requires Valid() && dir in st.inodes && pool.Length < 0x1_0000 && posn <= |st.inodes[dir].entries|
      ensures dir in w.chains && |w.chains[dir]| == |st.inodes[dir].entries|
      ensures entry == if posn < |w.chains[dir]| then Some(w.chains[dir][posn]) else None
    {
      LinkTarget(pool[..], free, w, st, loose, dir);
      hide Repr;
      ghost var ds, es := w.chains[dir], st.inodes[dir].entries;
      ChainIsShort(pool[..], w, loose, dir, ds, es);
      var left := posn % 0x1_0000;
      ghost var k := 0;
      entry := pool[dir].dir;
      while entry.Some? && left > 0
        invariant 0 <= k <= posn && left == posn - k
        invariant entry == (if k < |ds| then Some(ds[k]) else None)
        decreases left
      {
        assert DirentAt(pool[..], w, loose, dir, ds, k, es[k]);
        entry := pool[entry.value].link;
        left := left - 1;
        k := k + 1;
      }
    }
  }

  lemma ChildIsInode(st: State, dir: nat, k: nat)
    requires Sound(st) && dir in st.inodes && k < |st.inodes[dir].entries|
    ensures st.inodes[dir].entries[k].child in st.inodes
  {
    assert InodeOk(st, dir) && EntryOk(st, st.inodes[dir].entries[k]);
  }

  /** A directory has no more entries than there are buffers. */
  lemma ChainIsShort(pool: seq<Buf>, w: Wit, loose: set<nat>, i: nat, ds: seq<nat>, entries: seq<Entry>)
    requires |entries| == |ds| && forall k :: 0 <= k < |ds| ==> DirentAt(pool, w, loose, i, ds, k, entries[k])
    ensures |ds| <= |pool|
  {
    forall j, k | 0 <= j < k < |ds| ensures ds[j] != ds[k] {
      assert DirentAt(pool, w, loose, i, ds, j, entries[j]) && DirentAt(pool, w, loose, i, ds, k, entries[k]);
    }
    forall k | 0 <= k < |ds| ensures ds[k] < |pool| {
      assert DirentAt(pool, w, loose, i, ds, k, entries[k]);
    }
    DistinctFit(ds, From(0, |pool|));
    FromSize(0, |pool|);
  }

  lemma {:induction false} DistinctFit(s: seq<nat>, all: set<nat>)
    requires NoDup(s) && forall k :: 0 <= k < |s| ==> s[k] in all
    ensures |s| <= |all|
  {
    if s != [] {
      var n := |s| - 1;
      DistinctFit(s[..n], all - {s[n]});
    }
  }

  lemma {:induction false} FromSize(i: nat, n: nat)
    requires i <= n
    ensures |From(i, n)| == n - i
    decreases n - i
  {
    if i < n {
      FromSize(i + 1, n);
    }
  }

  lemma ChildAttached(st: State, dir: nat, name: string, c: nat, mode: Mode, mtime: nat)
    requires dir in st.inodes && c !in st.inodes && st.free >= 2
    ensures var one := AddChild(st, dir, name, c, mode, mtime, 1);
            && AddEntry(SetInode(SetFree(st, st.free - 2), c, RamInode(mode, mtime, 1)), dir, Entry(name, c)) == one
            && Ref(one, c) == AddChild(st, dir, name, c, mode, mtime, 2)
  {
    var one := AddChild(st, dir, name, c, mode, mtime, 1);
    var attached := AddEntry(SetInode(SetFree(st, st.free - 2), c, RamInode(mode, mtime, 1)), dir, Entry(name, c));
    assert attached.inodes == one.inodes;
    assert Ref(one, c).inodes == AddChild(st, dir, name, c, mode, mtime, 2).inodes;
  }

  /** Setting the number of a new device and giving its reference back. */
  lemma DeviceMade(st: State, dir: nat, name: string, p: nat, mode: Mode, mtime: nat, device: nat)
    requires dir in st.inodes && p !in st.inodes && st.free >= 2
    ensures var two := AddChild(st, dir, name, p, mode, mtime, 2);
            var numbered := SetInode(two, p, two.inodes[p].(device := device));
            && MayDrop(numbered, p)
            && Unref(numbered, p) == FsRuns.WithDevice(AddChild(st, dir, name, p, mode, mtime, 1), p, device)
  {
    var two := AddChild(st, dir, name, p, mode, mtime, 2);
    var numbered := SetInode(two, p, two.inodes[p].(device := device));
    assert Unref(numbered, p).inodes == FsRuns.WithDevice(AddChild(st, dir, name, p, mode, mtime, 1), p, device).inodes;
  }

  /** Creating in a directory that the walk holds, and then giving that reference back. */
  lemma CreateWhileHeld(st: State, dir: nat, name: string, p: nat, mode: Mode, mtime: nat)
    requires Sound(st) && OnRam(st, Ram(dir)) && st.free >= 2 && p !in st.inodes
    ensures var st' := AddChild(Ref(st, dir), dir, name, p, mode, mtime, 2);
            MayDrop(st', dir) && Unref(st', dir) == AddChild(st, dir, name, p, mode, mtime, 2)
  {
    assert InodeOk(st, dir);
    var st' := AddChild(Ref(st, dir), dir, name, p, mode, mtime, 2);
    assert Unref(st', dir).inodes == AddChild(st, dir, name, p, mode, mtime, 2).inodes;
  }

  /** What is held may be dropped, and an inode of the volume has its information block. */
  lemma HeldInode(s: FsRuns.Sys, q: nat)
    requires OpenFiles.Sane(s) && q in s.held
    ensures MayDrop(s.st, q) && (s.st.inodes[q].op.FatFs? ==> s.st.inodes[q].info.Some?)
  {
    FsRuns.LastReference(s.st, s.held, s.up, q);
    assert InodeOk(s.st, q);
  }

  lemma Exchanged(s: FsRuns.Sys, q: nat)
    requires OpenFiles.Sane(s) && q in s.held && OnRam(s.st, Ram(q)) && Mounted(s.st.inodes[q].mode)
    ensures s.st.inodes[q].mount.Some?
    ensures var m, s1 := s.st.inodes[q].mount.value, FsRuns.Apply(s, FsRuns.Exchange(q));
            && m in s.st.inodes && MayDrop(Ref(s.st, m), q) && s1.st == Unref(Ref(s.st, m), q) && OpenFiles.Sane(s1)
            && m in s1.st.inodes && s1.st.inodes[m].info.Some?
  {
    hide FsRuns.Linked;
    FsRuns.MountedInode(s.st, s.up, q);
    OpenFiles.ExchangeFacts(s, q);
    var m, s1 := s.st.inodes[q].mount.value, FsRuns.Apply(s, FsRuns.Exchange(q));
    HeldInode(s, q);
    HeldInode(s1, m);
    assert InodeOk(s.st, m);
  }

  /** Mounting on a directory that the call holds, and then giving that reference back. */
  lemma MountWhileHeld(st: State, dir: nat, p: nat, mtime: nat)
    requires Sound(st) && OnRam(st, Ram(dir)) && !Mounted(st.inodes[dir].mode) && st.free >= 2 && p !in st.inodes
    ensures var st' := FsRuns.Mount(Ref(st, dir), dir, p, mtime);
            MayDrop(st', dir) && Unref(st', dir) == FsRuns.Mount(st, dir, p, mtime)
  {
    assert InodeOk(st, dir);
    var st' := FsRuns.Mount(Ref(st, dir), dir, p, mtime);
    assert Unref(st', dir).inodes == FsRuns.Mount(st, dir, p, mtime).inodes;
  }

  ghost function From(i: nat, n: nat): (r: set<nat>)
    ensures forall x :: x in r <==> i <= x < n
    decreases n - i
  {
    if i >= n then {} else {i} + From(i + 1, n)
  }

  lemma RootChange(pool: seq<Buf>, free: Ptr, w: Wit, st: State, loose: set<nat>, root: nat)
    requires Repr(pool, free, w, st, loose)
    ensures Repr(pool, free, w, st.(root := root), loose)
  {
  }

  lemma StartOfPath(comps: seq<string>)
    ensures comps != [] ==> PosOf(comps, 0) == 1
    ensures comps == [] ==> |Render(comps)| == 1
  {
    assert comps[..0] == [];
  }
}
