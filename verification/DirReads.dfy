/**
 Reading a directory in pieces while names are added to it (os/fs/ram/ramfs.c).
 */
module DirReads {
  import opened CString
  import opened FsSpec

  /** An open directory: its entries now, the position of the file, and all that the reads have
      returned so far. */
  datatype Reading = Reading(entries: seq<Entry>, posn: nat, got: seq<Entry>)

  /** A read into a buffer with room for `room` records, or an entry appended by ramfs_mknod. */
  datatype Step = Read(room: nat) | Added(entry: Entry)

  /** What one call of ramfs_dir_read returns, as Vfs.DirRead has it. */
  function Batch(entries: seq<Entry>, posn: nat, room: nat): (r: seq<Entry>)
    requires posn <= |entries|
    ensures |r| == Min(|entries| - posn, room)
  {
    entries[posn..posn + Min(|entries| - posn, room)]
  }

  function Apply(d: Reading, step: Step): (d': Reading)
    requires d.posn <= |d.entries|
    ensures d'.posn <= |d'.entries|
  {
    match step
    case Added(e) => d.(entries := d.entries + [e])
    case Read(room) =>
      var b := Batch(d.entries, d.posn, room);
      d.(posn := d.posn + |b|, got := d.got + b)
  }

  function Exec(d: Reading, steps: seq<Step>): (d': Reading)
    requires d.posn <= |d.entries|
    ensures d'.posn <= |d'.entries|
    decreases |steps|
  {
    if steps == [] then d else Exec(Apply(d, steps[0]), steps[1..])
  }

  /** The entries that a run adds, in order. */
  function AddedBy(steps: seq<Step>): seq<Entry>
  {
    if steps == [] then [] else (if steps[0].Added? then [steps[0].entry] else []) + AddedBy(steps[1..])
  }

  /** Whatever the buffer sizes and whenever names are added, the reads together return the
      directory from its beginning, in creation order: nothing twice and nothing skipped. */
  lemma ReadsArePrefix(d: Reading, steps: seq<Step>)
    requires d.posn <= |d.entries| && d.got == d.entries[..d.posn]
    ensures var d' := Exec(d, steps);
            && d'.entries == d.entries + AddedBy(steps)
            && d'.got == d'.entries[..d'.posn] && d.got <= d'.got <= d'.entries
  {
    ReadsInStep(d, steps);
    hide Exec;
    var d' := Exec(d, steps);
    assert d'.entries[..d.posn] == d.entries[..d.posn];
  }

  lemma {:induction false} ReadsInStep(d: Reading, steps: seq<Step>)
    requires d.posn <= |d.entries| && d.got == d.entries[..d.posn]
    ensures var d' := Exec(d, steps);
            d'.entries == d.entries + AddedBy(steps) && d.posn <= d'.posn && d'.got == d'.entries[..d'.posn]
    decreases |steps|
  {
    hide Apply;
    if steps == [] {
      assert d.entries + AddedBy(steps) == d.entries;
    } else {
      var next, first := Apply(d, steps[0]), if steps[0].Added? then [steps[0].entry] else [];
      OneRead(d, steps[0]);
      ReadsInStep(next, steps[1..]);
      assert d.entries + first + AddedBy(steps[1..]) == d.entries + (first + AddedBy(steps[1..]));
    }
  }

  lemma OneRead(d: Reading, step: Step)
    requires d.posn <= |d.entries| && d.got == d.entries[..d.posn]
    ensures var d' := Apply(d, step);
            && d'.got == d'.entries[..d'.posn] && d.posn <= d'.posn
            && d'.entries == d.entries + if step.Added? then [step.entry] else []
  {
    var d' := Apply(d, step);
    match step
    case Added(e) => assert d'.entries[..d.posn] == d.entries[..d.posn];
    case Read(room) =>
      assert d.entries + [] == d.entries;
      assert d.entries[..d.posn] + Batch(d.entries, d.posn, room) == d.entries[..d'.posn];
  }

  /** A read that returns less than it has room for has returned the rest of the directory. */
  lemma ShortReadIsEnd(d: Reading, room: nat)
    requires d.posn <= |d.entries| && d.got == d.entries[..d.posn]
    ensures |Batch(d.entries, d.posn, room)| < room ==> Apply(d, Read(room)).got == d.entries
  {
    if |Batch(d.entries, d.posn, room)| < room {
      assert d.entries[..d.posn] + d.entries[d.posn..] == d.entries;
    }
  }
}
