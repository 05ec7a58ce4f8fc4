/**
 With nothing mounted, the directories refine a tree: a finite map from paths to inodes.
 Looking up a path is looking it up in that map, and creating a name adds one binding to it.
 */
module FsTree {
  import opened Options
  import opened Bits
  import opened Errno
  import opened PathSpec
  import opened FsSpec
  import opened FsModes

  type Path = seq<string>

  /** The tree, and the path of every inode in it. */
  datatype Names = Names(at: map<Path, nat>, path: map<nat, Path>)

  predicate UniqueNames(entries: seq<Entry>)
  {
    forall j, k :: 0 <= j < k < |entries| ==> entries[j].name != entries[k].name
  }

  /** The entries of the directory at path `p` are the bindings one level below it. */
  predicate EntriesMatch(t: Names, p: Path, entries: seq<Entry>)
  {
    forall k :: 0 <= k < |entries| ==> Bound(t, p, entries[k].name, entries[k].child)
  }

  predicate Bound(t: Names, p: Path, name: string, i: nat) { p + [name] in t.at && t.at[p + [name]] == i }

  predicate NodeOk(st: State, t: Names, i: nat)
    requires i in st.inodes
  {
    var n := st.inodes[i];
    && n.op.RamFs? && !Mounted(n.mode)
    && i in t.path && t.path[i] in t.at && t.at[t.path[i]] == i
    && UniqueNames(n.entries) && EntriesMatch(t, t.path[i], n.entries)
  }

  function Up(p: Path): Path
    requires p != []
  {
    p[..|p| - 1]
  }

  function Last(p: Path): string
    requires p != []
  {
    p[|p| - 1]
  }

  predicate PathOk(st: State, t: Names, p: Path)
    requires p in t.at
  {
    && t.at[p] in st.inodes && t.at[p] in t.path && t.path[t.at[p]] == p
    && (p == [] ==> t.at[p] == st.root)
    && (p != [] ==> Up(p) in t.at && HasEntry(st, t.at[Up(p)], Last(p)))
  }

  predicate HasEntry(st: State, d: nat, name: string)
  {
    d in st.inodes && FindEntry(st.inodes[d].entries, name).Some?
  }

  ghost predicate Tree(st: State, t: Names)
  {
    && Sound(st) && [] in t.at
    && (forall i :: i in st.inodes ==> NodeOk(st, t, i))
    && (forall p :: p in t.at ==> PathOk(st, t, p))
  }

  // --- Looking up ------------------------------------------------------------------------

  /** An entry is found exactly when the path is in the tree. */
  lemma ChildInTree(st: State, t: Names, p: Path, name: string)
    requires Tree(st, t) && p in t.at
    ensures t.at[p] in st.inodes
    ensures var k := FindEntry(st.inodes[t.at[p]].entries, name);
            && (k.Some? <==> p + [name] in t.at)
            && (k.Some? ==> st.inodes[t.at[p]].entries[k.value].child == t.at[p + [name]])
  {
    hide UniqueNames;
    hide Sound;
    assert PathOk(st, t, p) && NodeOk(st, t, t.at[p]);
    var q := p + [name];
    if q in t.at {
      assert PathOk(st, t, q) && Up(q) == p && Last(q) == name;
    }
    var k := FindEntry(st.inodes[t.at[p]].entries, name);
    if k.Some? {
      assert Bound(t, p, name, st.inodes[t.at[p]].entries[k.value].child);
    }
  }

  lemma InodeInTree(st: State, t: Names, p: Path)
    requires Tree(st, t) && p in t.at
    ensures t.at[p] in st.inodes && OnRam(st, Ram(t.at[p])) && !Mounted(st.inodes[t.at[p]].mode)
    ensures t.at[p] in t.path && t.path[t.at[p]] == p
    ensures p != [] ==> Up(p) in t.at
  {
    hide UniqueNames;
    hide EntriesMatch;
    hide Sound;
    assert PathOk(st, t, p) && NodeOk(st, t, t.at[p]);
  }

  /** One step of a walk, in terms of the tree. */
  lemma StepInTree(st: State, disk: Disk, t: Names, p: Path, name: string)
    requires Tree(st, t) && p in t.at
    ensures OnRam(st, Ram(t.at[p]))
    ensures IsDir(st.inodes[t.at[p]].mode) ==>
              ChildOf(st, disk, Ram(t.at[p]), name) ==
                if p + [name] in t.at then Child(Ram(t.at[p + [name]])) else Error(-ENOENT)
  {
    InodeInTree(st, t, p);
    ChildInTree(st, t, p, name);
    hide Tree;
  }

  /** Every directory above the end of the path can be searched by its owner, which is bit 6 of
      the mode, and nothing below the start of it is a symbolic link. */
  predicate Passable(st: State, t: Names, p: Path, comps: Path)
    decreases |comps|
  {
    comps == [] ||
    (&& p in t.at && t.at[p] in st.inodes && p + [comps[0]] in t.at && t.at[p + [comps[0]]] in st.inodes
     && Bit(st.inodes[t.at[p]].mode, 6) && !IsLnk(st.inodes[t.at[p + [comps[0]]]].mode)
     && Passable(st, t, p + [comps[0]], comps[1..]))
  }

  lemma Regroup(p: Path, comps: Path)
    requires comps != []
    ensures p + [comps[0]] + comps[1..] == p + comps
    ensures |comps| > 1 ==> p + [comps[0]] + Up(comps[1..]) == p + Up(comps) && Last(comps[1..]) == Last(comps)
  {
    assert p + [comps[0]] + comps[1..] == p + comps;
    if |comps| > 1 {
      assert p + [comps[0]] + Up(comps[1..]) == p + Up(comps);
    }
  }

  lemma SoundOf(st: State, t: Names)
    requires Tree(st, t)
    ensures Sound(st)
  {
  }

  lemma ParentIsDir(st: State, t: Names, p: Path, name: string)
    requires Tree(st, t) && p in t.at && p + [name] in t.at
    ensures t.at[p] in st.inodes && IsDir(st.inodes[t.at[p]].mode)
  {
    ChildInTree(st, t, p, name);
    assert InodeOk(st, t.at[p]);
  }

  /** What the first component of a walk does, in terms of the tree. */
  lemma WalkStep(st: State, disk: Disk, t: Names, p: Path, comps: Path)
    requires Tree(st, t) && p in t.at && comps != []
    ensures Sound(st) && OnRam(st, Ram(t.at[p]))
    ensures p + [comps[0]] in t.at ==> OnRam(st, Ram(t.at[p + [comps[0]]])) && IsDir(st.inodes[t.at[p]].mode)
    ensures var q := p + [comps[0]];
            var m := st.inodes[t.at[p]].mode;
            Walk(st, disk, Ram(t.at[p]), comps) ==
              if !IsDir(m) then Stopped(-ENOTDIR)
              else if Access(m, X_OK) < 0 then Stopped(Access(m, X_OK))
              else if q !in t.at then
                if |comps| == 1 then NoEntry(Ram(t.at[p]), comps[0]) else Stopped(-ENOENT)
              else if IsLnk(st.inodes[t.at[q]].mode) then Stopped(-EINVAL)
              else Walk(st, disk, Ram(t.at[q]), comps[1..])
  {
    hide Tree;
    hide Sound;
    hide ChildOf;
    hide Access;
    SoundOf(st, t);
    StepInTree(st, disk, t, p, comps[0]);
    if p + [comps[0]] in t.at {
      ParentIsDir(st, t, p, comps[0]);
      InodeInTree(st, t, p + [comps[0]]);
    }
  }

  /** A walk succeeds exactly when the path is in the tree and can be passed, and then it ends
      at the inode that the tree has there.  It lacks the last name only if its parent is in
      the tree and it is not. */
  lemma {:induction false} WalkIsTree(st: State, disk: Disk, t: Names, p: Path, comps: Path)
    requires Tree(st, t) && p in t.at
    ensures Sound(st) && OnRam(st, Ram(t.at[p]))
    ensures var r := Walk(st, disk, Ram(t.at[p]), comps);
            && (r.Reached? <==> p + comps in t.at && Passable(st, t, p, comps))
            && (r.Reached? ==> r.node == Ram(t.at[p + comps]))
            && (r.NoEntry? ==>
                  && comps != [] && p + comps !in t.at
                  && p + Up(comps) in t.at && r.dir == Ram(t.at[p + Up(comps)]) && r.name == Last(comps))
    decreases |comps|
  {
    hide Tree;
    hide Sound;
    hide Walk;
    hide Access;
    hide FileType;
    SoundOf(st, t);
    InodeInTree(st, t, p);
    if comps == [] {
      assert p + comps == p;
      WalkNowhere(st, disk, Ram(t.at[p]));
    } else {
      var q := p + [comps[0]];
      WalkStep(st, disk, t, p, comps);
      Regroup(p, comps);
      if q in t.at {
        InodeInTree(st, t, q);
        SearchAndWrite(st.inodes[t.at[p]].mode);
        WalkIsTree(st, disk, t, q, comps[1..]);
      } else {
        NotBelow(st, t, p, comps);
        assert |comps| == 1 ==> Up(comps) == [] && p + Up(comps) == p;
      }
    }
  }

  lemma UpInTree(st: State, t: Names, p: Path)
    requires Tree(st, t) && p != []
    ensures p in t.at ==> Up(p) in t.at
  {
    hide NodeOk;
    hide Sound;
    assert p in t.at ==> PathOk(st, t, p);
  }

  /** A path below a missing name is missing. */
  lemma {:induction false} NotBelow(st: State, t: Names, p: Path, comps: Path)
    requires Tree(st, t) && comps != [] && p + [comps[0]] !in t.at
    ensures p + comps !in t.at
    decreases |comps|
  {
    hide Tree;
    if |comps| == 1 {
      assert comps == [comps[0]];
    } else {
      NotBelow(st, t, p, Up(comps));
      assert Up(p + comps) == p + Up(comps);
      UpInTree(st, t, p + comps);
    }
  }

  lemma RootInTree(st: State, t: Names)
    requires Tree(st, t)
    ensures [] in t.at && t.at[[]] == st.root
  {
    hide NodeOk;
    assert PathOk(st, t, []);
  }

  /** inode_lookup of an absolute path reaches the inode that the tree has at that path. */
  lemma LookupIsTree(st: State, disk: Disk, t: Names, comps: Path)
    requires Tree(st, t)
    ensures Sound(st) && OnRam(st, Ram(st.root))
    ensures var r := Walk(st, disk, Ram(st.root), comps);
            && (r.Reached? <==> comps in t.at && Passable(st, t, [], comps))
            && (r.Reached? ==> r.node == Ram(t.at[comps]))
            && (r.NoEntry? ==>
                  && comps != [] && comps !in t.at
                  && Up(comps) in t.at && r.dir == Ram(t.at[Up(comps)]) && r.name == Last(comps))
  {
    RootInTree(st, t);
    hide Tree;
    hide Walk;
    hide Passable;
    assert [] + comps == comps && (comps != [] ==> [] + Up(comps) == Up(comps));
    WalkIsTree(st, disk, t, [], comps);
  }

  // --- Creating ----------------------------------------------------------------------------

  function Bind(t: Names, p: Path, i: nat): Names { Names(t.at[p := i], t.path[i := p]) }

  /** A new name adds exactly its own binding to the tree. */
  lemma AddChildTree(st: State, t: Names, dir: nat, name: string, p: nat, mode: Mode, mtime: nat, count: nat)
    requires Tree(st, t) && OnRam(st, Ram(dir)) && IsDir(st.inodes[dir].mode) && st.free >= 2 && p !in st.inodes
    requires GoodName(name) && |name| <= RAMFS_MAX_NAME && count >= 1 && !Mounted(mode)
    requires dir in t.path && t.path[dir] + [name] !in t.at
    ensures Tree(AddChild(st, dir, name, p, mode, mtime, count), Bind(t, t.path[dir] + [name], p))
  {
    var st' := AddChild(st, dir, name, p, mode, mtime, count);
    var t' := Bind(t, t.path[dir] + [name], p);
    SoundOf(st, t);
    AddChildSound(st, dir, name, p, mode, mtime, count);
    forall i | i in st'.inodes ensures NodeOk(st', t', i) {
      AddedNode(st, t, dir, name, p, mode, mtime, count, i);
    }
    forall q | q in t'.at ensures PathOk(st', t', q) {
      AddedPath(st, t, dir, name, p, mode, mtime, count, q);
    }
    hide NodeOk;
    hide PathOk;
    hide Sound;
  }

  lemma AddedNode(st: State, t: Names, dir: nat, name: string, p: nat, mode: Mode, mtime: nat, count: nat, i: nat)
    requires Tree(st, t) && OnRam(st, Ram(dir)) && st.free >= 2 && p !in st.inodes && !Mounted(mode)
    requires dir in t.path && t.path[dir] + [name] !in t.at
    requires i in AddChild(st, dir, name, p, mode, mtime, count).inodes
    ensures NodeOk(AddChild(st, dir, name, p, mode, mtime, count), Bind(t, t.path[dir] + [name], p), i)
  {
    hide Sound;
    hide PathOk;
    assert dir in st.inodes ==> NodeOk(st, t, dir);
    if i in st.inodes {
      assert NodeOk(st, t, i);
      var es := st.inodes[i].entries;
      assert forall k :: 0 <= k < |es| ==> Bound(t, t.path[i], es[k].name, es[k].child);
    }
  }

  lemma AddedPath(st: State, t: Names, dir: nat, name: string, p: nat, mode: Mode, mtime: nat, count: nat, q: Path)
    requires Tree(st, t) && OnRam(st, Ram(dir)) && st.free >= 2 && p !in st.inodes
    requires dir in t.path && t.path[dir] + [name] !in t.at
    requires q in Bind(t, t.path[dir] + [name], p).at
    ensures PathOk(AddChild(st, dir, name, p, mode, mtime, count), Bind(t, t.path[dir] + [name], p), q)
  {
    hide Sound;
    hide UniqueNames;
    hide EntriesMatch;
    hide HasEntry;
    if q in t.at {
      assert PathOk(st, t, q);
      if q != [] {
        EntryKept(st, dir, name, p, mode, mtime, count, t.at[Up(q)], Last(q));
      }
    } else {
      assert NodeOk(st, t, dir);
      assert Up(q) == t.path[dir] && Last(q) == name;
      EntryAdded(st, dir, name, p, mode, mtime, count);
    }
  }

  lemma EntryKept(st: State, dir: nat, name: string, p: nat, mode: Mode, mtime: nat, count: nat, d: nat, other: string)
    requires dir in st.inodes && st.free >= 2 && p !in st.inodes && HasEntry(st, d, other)
    ensures HasEntry(AddChild(st, dir, name, p, mode, mtime, count), d, other)
  {
    FindAppended(st.inodes[dir].entries, Entry(name, p), other);
  }

  lemma EntryAdded(st: State, dir: nat, name: string, p: nat, mode: Mode, mtime: nat, count: nat)
    requires dir in st.inodes && st.free >= 2 && p !in st.inodes
    ensures HasEntry(AddChild(st, dir, name, p, mode, mtime, count), dir, name)
  {
    FindAppended(st.inodes[dir].entries, Entry(name, p), name);
  }

  /** An entry at the end is found only if no earlier one has the name. */
  lemma FindAppended(entries: seq<Entry>, e: Entry, name: string)
    ensures FindEntry(entries + [e], name) ==
              if FindEntry(entries, name).Some? then FindEntry(entries, name)
              else if e.name == name then Some(|entries|) else None
  {
    assert (entries + [e])[..|entries|] == entries;
  }

  /** A lookup that may create does so at the path it was given, in that path's parent. */
  lemma CreateIsTree(st: State, disk: Disk, t: Names, comps: Path, oflag: nat, mode: Mode, mtime: nat, p: nat,
                     count: nat)
    requires Tree(st, t) && GoodStack(comps) && p !in st.inodes && !Mounted(mode) && count >= 1
    ensures Sound(st)
    ensures var d := Decide(st, disk, comps, oflag, mode);
            && (d.Existing? ==> comps in t.at && d.node == Ram(t.at[comps]))
            && (d.Create? ==>
                  && comps != [] && comps !in t.at && Up(comps) in t.at && t.at[Up(comps)] == d.dir
                  && Tree(AddChild(st, d.dir, d.name, p, mode, mtime, count), Bind(t, comps, p)))
  {
    hide Tree;
    hide Sound;
    hide Walk;
    hide Passable;
    hide Access;
    SoundOf(st, t);
    LookupIsTree(st, disk, t, comps);
    var d := Decide(st, disk, comps, oflag, mode);
    if d.Create? {
      InodeInTree(st, t, Up(comps));
      assert Up(comps) + [Last(comps)] == comps;
      assert GoodName(Last(comps));
      AddChildTree(st, t, d.dir, d.name, p, mode, mtime, count);
    }
  }

  /** The second tree has one path more, and the inodes at all others have the same mode. */
  predicate Agree(st: State, t: Names, st': State, t': Names, added: Path)
  {
    && (forall p :: p in t.at ==> SameAt(st, t, st', t', p))
    && (forall p :: p in t'.at ==> p in t.at || p == added)
  }

  predicate SameAt(st: State, t: Names, st': State, t': Names, p: Path)
    requires p in t.at
  {
    && p in t'.at && t'.at[p] == t.at[p] && t.at[p] in st.inodes && t.at[p] in st'.inodes
    && st'.inodes[t.at[p]].mode == st.inodes[t.at[p]].mode
  }

  /** Walks that do not pass the added path end alike. */
  lemma {:induction false} WalksAgree(st: State, t: Names, st': State, t': Names, disk: Disk, added: Path,
                                      from: Path, comps: Path)
    requires Tree(st, t) && Tree(st', t') && Agree(st, t, st', t', added)
    requires from in t.at && !(added <= from + comps)
    ensures Sound(st) && Sound(st') && OnRam(st, Ram(t.at[from])) && OnRam(st', Ram(t.at[from]))
    ensures Walk(st', disk, Ram(t.at[from]), comps) == Walk(st, disk, Ram(t.at[from]), comps)
    decreases |comps|
  {
    hide Tree;
    hide Sound;
    hide Walk;
    hide Access;
    hide FileType;
    SoundOf(st, t);
    SoundOf(st', t');
    InodeInTree(st, t, from);
    assert SameAt(st, t, st', t', from);
    InodeInTree(st', t', from);
    if comps == [] {
      WalkNowhere(st, disk, Ram(t.at[from]));
      WalkNowhere(st', disk, Ram(t.at[from]));
    } else {
      var q := from + [comps[0]];
      Regroup(from, comps);
      assert q <= from + comps;
      WalkStep(st, disk, t, from, comps);
      WalkStep(st', disk, t', from, comps);
      if q in t.at {
        assert SameAt(st, t, st', t', q);
        WalksAgree(st, t, st', t', disk, added, q, comps[1..]);
      }
    }
  }

  lemma AddChildAgrees(st: State, t: Names, dir: nat, name: string, p: nat, mode: Mode, mtime: nat, count: nat)
    requires Tree(st, t) && OnRam(st, Ram(dir)) && st.free >= 2 && p !in st.inodes
    requires dir in t.path && t.path[dir] + [name] !in t.at
    ensures var path := t.path[dir] + [name];
            Agree(st, t, AddChild(st, dir, name, p, mode, mtime, count), Bind(t, path, p), path)
  {
    hide Tree;
    var st', t' := AddChild(st, dir, name, p, mode, mtime, count), Bind(t, t.path[dir] + [name], p);
    forall q | q in t.at ensures SameAt(st, t, st', t', q) {
      InodeInTree(st, t, q);
    }
  }

  /** Walks to all other paths, those below the new name apart, end as they did before. */
  lemma OtherWalksUnchanged(st: State, disk: Disk, t: Names, dir: nat, name: string, p: nat,
                            mode: Mode, mtime: nat, count: nat, from: Path, comps: Path)
    requires Tree(st, t) && OnRam(st, Ram(dir)) && IsDir(st.inodes[dir].mode) && st.free >= 2 && p !in st.inodes
    requires GoodName(name) && |name| <= RAMFS_MAX_NAME && count >= 1 && !Mounted(mode)
    requires dir in t.path && t.path[dir] + [name] !in t.at
    requires from in t.at && !(t.path[dir] + [name] <= from + comps)
    ensures OnRam(st, Ram(t.at[from]))
    ensures var st' := AddChild(st, dir, name, p, mode, mtime, count);
            && Sound(st') && OnRam(st', Ram(t.at[from]))
            && Walk(st', disk, Ram(t.at[from]), comps) == Walk(st, disk, Ram(t.at[from]), comps)
  {
    hide Tree;
    hide Sound;
    hide Walk;
    hide Agree;
    var path := t.path[dir] + [name];
    AddChildTree(st, t, dir, name, p, mode, mtime, count);
    AddChildAgrees(st, t, dir, name, p, mode, mtime, count);
    WalksAgree(st, t, AddChild(st, dir, name, p, mode, mtime, count), Bind(t, path, p), disk, path, from, comps);
  }
}
