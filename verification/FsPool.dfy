/**
 How the inodes lie in the buffer cache (os/kmalloc.c, os/fs/ram/ramfs.h): every inode,
 directory entry and FAT information block is one buffer of a fixed pool, linked by pointers,
 and the unused buffers are on a free list.  Pointers are buffer numbers; None is NULL.
 */
module FsPool {
  import opened Options
  import opened FsSpec
  import opened Queues

  type Ptr = Option<nat>

  datatype Buf =
    | Zeroed
    | FreeBuf(next: Ptr)
    | InodeBuf(op: Op, count: int, mode: Mode, mtime: nat, device: nat, dir: Ptr, mount: Ptr, info: Ptr)
    | DirentBuf(name: string, inode: Ptr, link: Ptr)
    | InfoBuf(cluster: nat, size: nat)

  /** What the pointers stand for: the free list, the entries of each directory in order, and
      for every entry and information block the inode it belongs to and its index there. */
  datatype Wit = Wit(list: seq<nat>, chains: map<nat, seq<nat>>, home: map<nat, (nat, nat)>)

  function Head(s: seq<nat>): Ptr { if s == [] then None else Some(s[0]) }

  function NextIn(s: seq<nat>, k: nat): Ptr { if k + 1 < |s| then Some(s[k + 1]) else None }

  // --- The representation ----------------------------------------------------------------

  predicate FreeAt(pool: seq<Buf>, list: seq<nat>, loose: set<nat>, k: nat)
    requires k < |list|
  {
    list[k] < |pool| && list[k] !in loose && pool[list[k]] == FreeBuf(NextIn(list, k))
  }

  ghost predicate FreePart(pool: seq<Buf>, free: Ptr, list: seq<nat>, loose: set<nat>)
  {
    free == Head(list) && NoDup(list) && forall k :: 0 <= k < |list| ==> FreeAt(pool, list, loose, k)
  }

  predicate Matches(b: Buf, n: INode)
  {
    && b.InodeBuf? && b.op == n.op && b.count == n.count && b.mode == n.mode
    && b.mtime == n.mtime && b.device == n.device && b.mount == n.mount
  }

  predicate DirentAt(pool: seq<Buf>, w: Wit, loose: set<nat>, i: nat, ds: seq<nat>, k: nat, e: Entry)
    requires k < |ds|
  {
    && ds[k] < |pool| && ds[k] !in loose && ds[k] in w.home && w.home[ds[k]] == (i, k)
    && pool[ds[k]] == DirentBuf(e.name, Some(e.child), NextIn(ds, k))
  }

  predicate ChainAt(pool: seq<Buf>, w: Wit, loose: set<nat>, i: nat, head: Ptr, ds: seq<nat>, entries: seq<Entry>)
  {
    && head == Head(ds) && |ds| == |entries|
    && forall k :: 0 <= k < |ds| ==> DirentAt(pool, w, loose, i, ds, k, entries[k])
  }

  predicate InfoAt(pool: seq<Buf>, w: Wit, loose: set<nat>, i: nat, ptr: Ptr, info: Option<(nat, nat)>)
  {
    match info
    case None => ptr.None?
    case Some(v) =>
      && ptr.Some? && ptr.value < |pool| && ptr.value !in loose && ptr.value in w.home && w.home[ptr.value] == (i, 0)
      && pool[ptr.value] == InfoBuf(v.0, v.1)
  }

  predicate InodeAt(pool: seq<Buf>, w: Wit, loose: set<nat>, i: nat, n: INode)
  {
    && i < |pool| && i !in loose && i in w.chains && Matches(pool[i], n)
    && ChainAt(pool, w, loose, i, pool[i].dir, w.chains[i], n.entries)
    && InfoAt(pool, w, loose, i, pool[i].info, n.info)
  }

  predicate InodePart(pool: seq<Buf>, w: Wit, inodes: map<nat, INode>, loose: set<nat>)
  {
    forall i :: i in inodes ==> InodeAt(pool, w, loose, i, inodes[i])
  }

  /** No buffer is lost: it is free, an inode, or part of exactly one inode. */
  predicate Owned(pool: seq<Buf>, w: Wit, inodes: map<nat, INode>, p: nat)
    requires p < |pool|
  {
    match pool[p]
    case Zeroed => false
    case FreeBuf(_) => p in w.list
    case InodeBuf(_, _, _, _, _, _, _, _) => p in inodes
    case DirentBuf(_, _, _) =>
      && p in w.home && w.home[p].0 in inodes && w.home[p].0 in w.chains
      && w.home[p].1 < |w.chains[w.home[p].0]| && w.chains[w.home[p].0][w.home[p].1] == p
    case InfoBuf(_, _) =>
      && p in w.home && w.home[p].0 in inodes && w.home[p].0 < |pool|
      && pool[w.home[p].0].InodeBuf? && pool[w.home[p].0].info == Some(p)
  }

  predicate CoverPart(pool: seq<Buf>, w: Wit, inodes: map<nat, INode>, loose: set<nat>)
  {
    forall p :: 0 <= p < |pool| && p !in loose ==> Owned(pool, w, inodes, p)
  }

  /** `loose` are the buffers that have been allocated and not linked yet. */
  ghost predicate Repr(pool: seq<Buf>, free: Ptr, w: Wit, st: State, loose: set<nat>)
  {
    && |w.list| == st.free
    && FreePart(pool, free, w.list, loose)
    && InodePart(pool, w, st.inodes, loose)
    && CoverPart(pool, w, st.inodes, loose)
  }

  // --- Writing -----------------------------------------------------------------------------

  /** A buffer that belongs to nothing can be written. */
  lemma WriteLoose(pool: seq<Buf>, free: Ptr, w: Wit, st: State, loose: set<nat>, p: nat, b: Buf)
    requires Repr(pool, free, w, st, loose) && p in loose && p < |pool|
    ensures Repr(pool[p := b], free, w, st, loose)
  {
    var pool' := pool[p := b];
    forall k | 0 <= k < |w.list| ensures FreeAt(pool', w.list, loose, k) {
      assert FreeAt(pool, w.list, loose, k);
    }
    forall i | i in st.inodes ensures InodeAt(pool', w, loose, i, st.inodes[i]) {
      assert InodeAt(pool, w, loose, i, st.inodes[i]);
      ChainKept(pool, pool', w, w, loose, loose, i, pool[i].dir, w.chains[i], st.inodes[i].entries);
    }
    forall q | 0 <= q < |pool'| && q !in loose ensures Owned(pool', w, st.inodes, q) {
      assert Owned(pool, w, st.inodes, q);
      OwnerIsFast(pool, w, st.inodes, loose, q);
    }
  }

  /** A chain stays when none of its own entries changes. */
  lemma ChainKept(pool: seq<Buf>, pool': seq<Buf>, w: Wit, w': Wit, loose: set<nat>, loose': set<nat>,
                  i: nat, head: Ptr, ds: seq<nat>, entries: seq<Entry>)
    requires ChainAt(pool, w, loose, i, head, ds, entries) && |pool'| == |pool|
    requires forall d ::
               d in ds && d < |pool| && d !in loose && d in w.home && pool[d].DirentBuf? && w.home[d].0 == i ==>
                 pool'[d] == pool[d] && d !in loose' && d in w'.home && w'.home[d] == w.home[d]
    ensures ChainAt(pool', w', loose', i, head, ds, entries)
  {
    forall k | 0 <= k < |ds| ensures DirentAt(pool', w', loose', i, ds, k, entries[k]) {
      assert DirentAt(pool, w, loose, i, ds, k, entries[k]);
    }
  }

  /** The inode that owns an information block is not loose. */
  lemma OwnerIsFast(pool: seq<Buf>, w: Wit, inodes: map<nat, INode>, loose: set<nat>, q: nat)
    requires InodePart(pool, w, inodes, loose) && q < |pool| && Owned(pool, w, inodes, q)
    ensures pool[q].InfoBuf? ==> w.home[q].0 !in loose
  {
    if pool[q].InfoBuf? {
      assert InodeAt(pool, w, loose, w.home[q].0, inodes[w.home[q].0]);
    }
  }

  // --- The free list -----------------------------------------------------------------------

  /** SLIST_REMOVE_HEAD: the first free buffer becomes loose. */
  lemma PopFree(pool: seq<Buf>, free: Ptr, w: Wit, st: State, loose: set<nat>, p: nat)
    requires Repr(pool, free, w, st, loose) && free == Some(p)
    ensures st.free >= 1 && p < |pool| && p !in loose && p !in st.inodes && pool[p].FreeBuf?
    ensures Repr(pool, pool[p].next, w.(list := w.list[1..]), SetFree(st, st.free - 1), loose + {p})
  {
    var list, loose' := w.list[1..], loose + {p};
    var w' := w.(list := list);
    assert FreeAt(pool, w.list, loose, 0);
    forall k | 0 <= k < |list| ensures FreeAt(pool, list, loose', k) {
      assert FreeAt(pool, w.list, loose, k + 1);
    }
    forall i | i in st.inodes ensures InodeAt(pool, w', loose', i, st.inodes[i]) {
      assert InodeAt(pool, w, loose, i, st.inodes[i]);
      ChainKept(pool, pool, w, w', loose, loose', i, pool[i].dir, w.chains[i], st.inodes[i].entries);
    }
    forall q | 0 <= q < |pool| && q !in loose' ensures Owned(pool, w', st.inodes, q) {
      assert Owned(pool, w, st.inodes, q);
      assert w.list == [p] + list;
    }
  }

  /** SLIST_INSERT_HEAD: a loose buffer becomes the first free one. */
  lemma PushFree(pool: seq<Buf>, free: Ptr, w: Wit, st: State, loose: set<nat>, p: nat)
    requires Repr(pool, free, w, st, loose) && p in loose && p < |pool| && pool[p] == FreeBuf(free)
    ensures Repr(pool, Some(p), w.(list := [p] + w.list), SetFree(st, st.free + 1), loose - {p})
  {
    var list, loose' := [p] + w.list, loose - {p};
    var w' := w.(list := list);
    forall k | 0 <= k < |w.list| ensures w.list[k] != p {
      assert FreeAt(pool, w.list, loose, k);
    }
    assert NoDup(list);
    forall k | 0 <= k < |list| ensures FreeAt(pool, list, loose', k) {
      assert k > 0 ==> FreeAt(pool, w.list, loose, k - 1);
    }
    forall i | i in st.inodes ensures InodeAt(pool, w', loose', i, st.inodes[i]) {
      assert InodeAt(pool, w, loose, i, st.inodes[i]);
      ChainKept(pool, pool, w, w', loose, loose', i, pool[i].dir, w.chains[i], st.inodes[i].entries);
    }
    forall q | 0 <= q < |pool| && q !in loose' ensures Owned(pool, w', st.inodes, q) {
      assert q != p ==> Owned(pool, w, st.inodes, q);
    }
  }

  // --- Inodes --------------------------------------------------------------------------------

  function SetInode(st: State, i: nat, n: INode): State { st.(inodes := st.inodes[i := n]) }

  /** Fields of an inode other than its pointers to entries and information change. */
  lemma WriteInode(pool: seq<Buf>, free: Ptr, w: Wit, st: State, loose: set<nat>, i: nat, b: Buf, n: INode)
    requires Repr(pool, free, w, st, loose) && i in st.inodes && i < |pool| && pool[i].InodeBuf?
    requires Matches(b, n) && b.dir == pool[i].dir && b.info == pool[i].info
    requires n.entries == st.inodes[i].entries && n.info == st.inodes[i].info
    ensures Repr(pool[i := b], free, w, SetInode(st, i, n), loose)
  {
    var pool', st' := pool[i := b], SetInode(st, i, n);
    forall k | 0 <= k < |w.list| ensures FreeAt(pool', w.list, loose, k) {
      assert FreeAt(pool, w.list, loose, k);
    }
    forall j | j in st'.inodes ensures InodeAt(pool', w, loose, j, st'.inodes[j]) {
      assert InodeAt(pool, w, loose, j, st.inodes[j]);
      ChainKept(pool, pool', w, w, loose, loose, j, pool[j].dir, w.chains[j], st.inodes[j].entries);
    }
    forall q | 0 <= q < |pool'| && q !in loose ensures Owned(pool', w, st'.inodes, q) {
      assert Owned(pool, w, st.inodes, q);
    }
  }

  /** A loose inode without entries joins; its information block, if any, joins with it. */
  lemma Adopt(pool: seq<Buf>, free: Ptr, w: Wit, st: State, loose: set<nat>, p: nat, n: INode,
              home: map<nat, (nat, nat)>, rest: set<nat>)
    requires Repr(pool, free, w, st, loose) && p in loose && p < |pool|
    requires Matches(pool[p], n) && n.entries == [] && pool[p].dir.None?
    requires match n.info
             case None => pool[p].info.None? && home == w.home && rest == loose - {p}
             case Some(v) =>
               && pool[p].info.Some? && pool[p].info.value in loose && pool[p].info.value < |pool|
               && pool[pool[p].info.value] == InfoBuf(v.0, v.1)
               && home == w.home[pool[p].info.value := (p, 0)] && rest == loose - {p, pool[p].info.value}
    ensures p !in st.inodes
    ensures Repr(pool, free, Wit(w.list, w.chains[p := []], home), SetInode(st, p, n), rest)
  {
    var w', st' := Wit(w.list, w.chains[p := []], home), SetInode(st, p, n);
    assert p in st.inodes ==> InodeAt(pool, w, loose, p, st.inodes[p]);
    forall k | 0 <= k < |w.list| ensures FreeAt(pool, w.list, rest, k) {
      assert FreeAt(pool, w.list, loose, k);
    }
    forall j | j in st'.inodes ensures InodeAt(pool, w', rest, j, st'.inodes[j]) {
      if j != p {
        AdoptOther(pool, w, loose, p, home, rest, j, st.inodes[j]);
      }
    }
    forall q | 0 <= q < |pool| && q !in rest ensures Owned(pool, w', st'.inodes, q) {
      assert q !in loose ==> Owned(pool, w, st.inodes, q);
    }
  }

  /** The other inodes do not have the buffers that join. */
  lemma AdoptOther(pool: seq<Buf>, w: Wit, loose: set<nat>, p: nat, home: map<nat, (nat, nat)>, rest: set<nat>,
                   j: nat, n: INode)
    requires InodeAt(pool, w, loose, j, n) && j != p && rest <= loose
    requires forall q :: q in w.home && q !in loose ==> q in home && home[q] == w.home[q]
    ensures InodeAt(pool, Wit(w.list, w.chains[p := []], home), rest, j, n)
  {
    var w' := Wit(w.list, w.chains[p := []], home);
    ChainKept(pool, pool, w, w', loose, rest, j, pool[j].dir, w.chains[j], n.entries);
  }

  /** An inode without entries leaves; it and its information block become loose. */
  lemma Forsake(pool: seq<Buf>, free: Ptr, w: Wit, st: State, loose: set<nat>, p: nat)
    requires Repr(pool, free, w, st, loose) && p in st.inodes && st.inodes[p].entries == []
    ensures p < |pool| && p !in loose && pool[p].InodeBuf? && pool[p].info.Some? == st.inodes[p].info.Some?
    ensures pool[p].info.Some? ==>
              pool[p].info.value < |pool| && pool[p].info.value !in loose && pool[p].info.value != p
    ensures var gone := if pool[p].info.Some? then {p, pool[p].info.value} else {p};
            Repr(pool, free, w, st.(inodes := st.inodes - {p}), loose + gone)
  {
    assert InodeAt(pool, w, loose, p, st.inodes[p]);
    var gone := if pool[p].info.Some? then {p, pool[p].info.value} else {p};
    var st', loose' := st.(inodes := st.inodes - {p}), loose + gone;
    forall k | 0 <= k < |w.list| ensures FreeAt(pool, w.list, loose', k) {
      assert FreeAt(pool, w.list, loose, k);
    }
    forall j | j in st'.inodes ensures InodeAt(pool, w, loose', j, st'.inodes[j]) {
      assert InodeAt(pool, w, loose, j, st.inodes[j]);
      ChainKept(pool, pool, w, w, loose, loose', j, pool[j].dir, w.chains[j], st.inodes[j].entries);
    }
    forall q | 0 <= q < |pool| && q !in loose' ensures Owned(pool, w, st'.inodes, q) {
      assert Owned(pool, w, st.inodes, q);
    }
  }

  // --- Directory entries ---------------------------------------------------------------------

  predicate EndsInDirent(pool: seq<Buf>, ds: seq<nat>)
  {
    ds != [] ==> ds[|ds| - 1] < |pool| && pool[ds[|ds| - 1]].DirentBuf?
  }

  /** The pool after the pointer at the end of the chain of `dir` has been set to `d`. */
  function LinkLast(pool: seq<Buf>, ds: seq<nat>, dir: nat, d: nat): seq<Buf>
    requires dir < |pool| && pool[dir].InodeBuf?
    requires EndsInDirent(pool, ds)
  {
    if ds == [] then pool[dir := pool[dir].(dir := Some(d))]
    else pool[ds[|ds| - 1] := pool[ds[|ds| - 1]].(link := Some(d))]
  }

  function AddEntry(st: State, dir: nat, e: Entry): State
    requires dir in st.inodes
  {
    SetInode(st, dir, st.inodes[dir].(entries := st.inodes[dir].entries + [e]))
  }

  function Extend(w: Wit, dir: nat, d: nat): Wit
    requires dir in w.chains
  {
    Wit(w.list, w.chains[dir := w.chains[dir] + [d]], w.home[d := (dir, |w.chains[dir]|)])
  }

  lemma LinkTarget(pool: seq<Buf>, free: Ptr, w: Wit, st: State, loose: set<nat>, dir: nat)
    requires Repr(pool, free, w, st, loose) && dir in st.inodes
    ensures dir < |pool| && pool[dir].InodeBuf? && dir in w.chains && |w.chains[dir]| == |st.inodes[dir].entries|
    ensures pool[dir].dir == Head(w.chains[dir])
    ensures forall k :: 0 <= k < |w.chains[dir]| ==>
              DirentAt(pool, w, loose, dir, w.chains[dir], k, st.inodes[dir].entries[k])
  {
    assert InodeAt(pool, w, loose, dir, st.inodes[dir]);
  }

  lemma Append(pool: seq<Buf>, free: Ptr, w: Wit, st: State, loose: set<nat>, dir: nat, d: nat, e: Entry)
    requires Repr(pool, free, w, st, loose) && dir in st.inodes && d in loose && d < |pool|
    requires pool[d] == DirentBuf(e.name, Some(e.child), None)
    requires dir < |pool| && pool[dir].InodeBuf? && dir in w.chains
    requires EndsInDirent(pool, w.chains[dir])
    ensures Repr(LinkLast(pool, w.chains[dir], dir, d), free, Extend(w, dir, d), AddEntry(st, dir, e), loose - {d})
  {
    hide Owned;
    hide InodeAt;
    hide FreeAt;
    var pool', w', st' := LinkLast(pool, w.chains[dir], dir, d), Extend(w, dir, d), AddEntry(st, dir, e);
    var loose' := loose - {d};
    forall k | 0 <= k < |w.list| ensures FreeAt(pool', w.list, loose', k) {
      AppendFree(pool, w, loose, dir, d, k);
    }
    forall j | j in st'.inodes ensures InodeAt(pool', w', loose', j, st'.inodes[j]) {
      AppendInode(pool, w, st, loose, dir, d, e, j);
    }
    forall q | 0 <= q < |pool'| && q !in loose' ensures Owned(pool', w', st'.inodes, q) {
      AppendOwned(pool, w, st, loose, dir, d, e, q);
    }
  }

  lemma AppendFree(pool: seq<Buf>, w: Wit, loose: set<nat>, dir: nat, d: nat, k: nat)
    requires k < |w.list| && FreeAt(pool, w.list, loose, k)
    requires dir < |pool| && pool[dir].InodeBuf? && dir in w.chains && EndsInDirent(pool, w.chains[dir])
    ensures FreeAt(LinkLast(pool, w.chains[dir], dir, d), w.list, loose - {d}, k)
  {
  }

  lemma AppendInode(pool: seq<Buf>, w: Wit, st: State, loose: set<nat>, dir: nat, d: nat, e: Entry, j: nat)
    requires j in st.inodes && InodeAt(pool, w, loose, j, st.inodes[j])
    requires dir in st.inodes && InodeAt(pool, w, loose, dir, st.inodes[dir]) && d in loose && d < |pool|
    requires pool[d] == DirentBuf(e.name, Some(e.child), None) && EndsInDirent(pool, w.chains[dir])
    ensures InodeAt(LinkLast(pool, w.chains[dir], dir, d), Extend(w, dir, d), loose - {d}, j,
                    AddEntry(st, dir, e).inodes[j])
  {
    var ds := w.chains[dir];
    var pool', w' := LinkLast(pool, ds, dir, d), Extend(w, dir, d);
    if j == dir {
      AppendChain(pool, w, loose, dir, d, st.inodes[dir].entries, e);
    } else {
      assert ds != [] ==> DirentAt(pool, w, loose, dir, ds, |ds| - 1, st.inodes[dir].entries[|ds| - 1]);
      ChainKept(pool, pool', w, w', loose, loose - {d}, j, pool[j].dir, w.chains[j], st.inodes[j].entries);
    }
  }

  lemma AppendChain(pool: seq<Buf>, w: Wit, loose: set<nat>, dir: nat, d: nat, entries: seq<Entry>, e: Entry)
    requires dir < |pool| && pool[dir].InodeBuf? && dir in w.chains && dir !in loose
    requires ChainAt(pool, w, loose, dir, pool[dir].dir, w.chains[dir], entries)
    requires d in loose && d < |pool| && pool[d] == DirentBuf(e.name, Some(e.child), None)
    requires EndsInDirent(pool, w.chains[dir])
    ensures var pool' := LinkLast(pool, w.chains[dir], dir, d);
            && pool'[dir].InodeBuf?
            && ChainAt(pool', Extend(w, dir, d), loose - {d}, dir, pool'[dir].dir, w.chains[dir] + [d], entries + [e])
  {
    var ds := w.chains[dir];
    var pool', w', ds', es := LinkLast(pool, ds, dir, d), Extend(w, dir, d), ds + [d], entries + [e];
    assert ds != [] ==> DirentAt(pool, w, loose, dir, ds, |ds| - 1, entries[|ds| - 1]);
    forall k | 0 <= k < |ds'| ensures DirentAt(pool', w', loose - {d}, dir, ds', k, es[k]) {
      if k < |ds| {
        assert DirentAt(pool, w, loose, dir, ds, k, entries[k]);
      }
    }
  }

  lemma AppendOwned(pool: seq<Buf>, w: Wit, st: State, loose: set<nat>, dir: nat, d: nat, e: Entry, q: nat)
    requires dir in st.inodes && dir < |pool| && pool[dir].InodeBuf? && dir in w.chains
    requires CoverPart(pool, w, st.inodes, loose) && d in loose && d < |pool| && pool[d].DirentBuf?
    requires EndsInDirent(pool, w.chains[dir])
    requires q < |pool| && q !in loose - {d}
    ensures Owned(LinkLast(pool, w.chains[dir], dir, d), Extend(w, dir, d), AddEntry(st, dir, e).inodes, q)
  {
    assert q != d ==> Owned(pool, w, st.inodes, q);
  }
}
