/**
 The one-block cache of os/drivers/sdcard/sdcard.c and the FAT lookup of os/fs/fat/fatutils.c
 on top of it, against a card whose contents do not change.
 */
module SdCache {
  import opened Options
  import Fat
  import opened Bits
  import opened SdAsm

  const BLKSIZE := 512
  const CSD_SIZE := 18
  const READY := 0

  type Block = b: seq<Byte> | |b| == BLKSIZE witness seq(BLKSIZE, _ => 0)

  /** The register and its two checksum bytes, as they are received. */
  type Csd = b: seq<Byte> | |b| == CSD_SIZE witness seq(CSD_SIZE, _ => 0)

  /** The contents of the card, block by block. */
  type Card = nat -> Block

  datatype Mode = Empty | ReadMode

  /** The cache fields of sd_info. */
  datatype Cache = Cache(blknum: nat, mode: Mode, block: Block)

  /** What sd_read does: the card's block, or an error before anything is received. */
  datatype ReadResult = Done(data: Block) | Failed(status: int)

  /** The card answers with its own block or fails. */
  predicate Answers(card: Card, blknum: nat, r: ReadResult)
  {
    match r
    case Done(data) => data == card(blknum)
    case Failed(status) => status != READY
  }

  /** A block that is marked as cached is the card's. */
  predicate Coherent(card: Card, c: Cache) { c.mode != Empty ==> c.block == card(c.blknum) }

  /** sd_cache_read: new cache and status. */
  function Read(c: Cache, blknum: nat, r: ReadResult): (Cache, int)
  {
    if blknum == c.blknum && c.mode != Empty then (c, READY)
    else
      match r
      case Done(data) => (Cache(blknum, ReadMode, data), READY)
      case Failed(status) => (Cache(if c.mode != Empty then 0 else c.blknum, Empty, c.block), status)
  }

  /** A block that is cached is not asked for again; any other replaces it if the card sends it,
      and else nothing is cached and the card's status is passed on. */
  lemma ReadEffect(c: Cache, blknum: nat, r: ReadResult)
    ensures var (c', status) := Read(c, blknum, r);
            if c.mode != Empty && c.blknum == blknum then c' == c && status == 0
            else if r.Done? then c'.block == r.data && c'.blknum == blknum && c'.mode != Empty && status == 0
            else c'.block == c.block && c'.mode == Empty && status == r.status
  {
  }

  lemma ReadIsRight(card: Card, c: Cache, blknum: nat, r: ReadResult)
    requires Coherent(card, c) && Answers(card, blknum, r)
    ensures var (c', status) := Read(c, blknum, r);
            && Coherent(card, c')
            && (status == READY ==> c'.block == card(blknum) && c'.blknum == blknum && c'.mode != Empty)
  {
  }

  // --- Detection ----------------------------------------------------------------------

  /** How the dialogue of a full detection goes: the register if the card gets as far as sending
      it, and whether the reads of block 0 and of the partition's first block succeed. */
  datatype Dialogue = Dialogue(csd: Option<Csd>, mbr: bool, pbr: bool)

  predicate Signed(b: Block) { b[510] == 0x55 && b[511] == 0xAA }

  predicate IsFat32(b: Block)
  {
    && b[11] == 0 && b[12] == 2 && b[13] in [1, 2, 4, 8, 16, 32, 64, 128] && b[16] == 2
    && b[17] == 0 && b[18] == 0 && b[19] == 0 && b[20] == 0 && (b[21] == 0xF0 || b[21] >= 0xF8)
  }

  /** Where the partition table says that the first partition starts. */
  function PartOffset(b: Block): nat { Word(b[454], b[455], b[456], b[457]) }

  const FAT32_TYPE := 0x0C
  const FAT16_TYPE := 0x0E

  /** sd_detect on a card that does not answer the CID query: the cache fields and the buffer
      afterwards, and whether a card was found. */
  function Detect(card: Card, c: Cache, d: Dialogue): (Cache, bool)
  {
    if d.csd.None? then (c, false)
    else
      var register: Block := CsdLeft(d.csd.value) + c.block[CSD_SIZE..];
      if CardSize(d.csd.value) == 0 || !d.mbr then (c.(block := register), false)
      else if !Signed(card(0)) then (c.(block := card(0)), false)
      else if card(0)[450] == FAT32_TYPE then
        var n := PartOffset(card(0));
        if !d.pbr then (c.(block := card(0)), false)
        else if !Signed(card(n)) || !IsFat32(card(n)) then (c.(block := card(n)), false)
        else (Cache(0, Empty, card(n)), true)
      else if card(0)[450] == FAT16_TYPE || !IsFat32(card(0)) then (c.(block := card(0)), false)
      else (Cache(0, Empty, card(0)), true)
  }

  ghost predicate SmallPower(x: int) { exists k :: 0 <= k <= 7 && x == Pow2(k) }

  /** A boot block of a FAT32 volume: signed, sectors of 512 bytes, clusters of a power of two of
      them, two FATs, no root entries and no 16-bit sector count, on a disk. */
  ghost predicate BootBlock(b: Block)
  {
    && Word(b[510], b[511], 0, 0) == 0xAA55 && Word(b[11], b[12], 0, 0) == 512 && b[16] == 2
    && SmallPower(b[13])
    && Word(b[17], b[18], b[19], b[20]) == 0 && (b[21] == 240 || 248 <= b[21])
  }

  lemma SignedIff(b: Block)
    ensures Signed(b) <==> Word(b[510], b[511], 0, 0) == 0xAA55
  {
  }

  lemma PowersToSeven()
    ensures Pow2(0) == 1 && Pow2(1) == 2 && Pow2(2) == 4 && Pow2(3) == 8
    ensures Pow2(4) == 16 && Pow2(5) == 32 && Pow2(6) == 64 && Pow2(7) == 128
  {
  }

  lemma ClusterSizes(x: int)
    ensures x in [1, 2, 4, 8, 16, 32, 64, 128] <==> SmallPower(x)
  {
    PowersToSeven();
    hide Pow2;
    if x in [1, 2, 4, 8, 16, 32, 64, 128] {
      var k := if x == 1 then 0 else if x == 2 then 1 else if x == 4 then 2 else if x == 8 then 3
               else if x == 16 then 4 else if x == 32 then 5 else if x == 64 then 6 else 7;
      assert x == Pow2(k);
    }
    forall k | 0 <= k <= 7 && x == Pow2(k) ensures x in [1, 2, 4, 8, 16, 32, 64, 128] {
      assert k == 0 || k == 1 || k == 2 || k == 3 || k == 4 || k == 5 || k == 6 || k == 7;
    }
  }

  lemma WordIs(b0: Byte, b1: Byte, b2: Byte, b3: Byte)
    ensures Word(b0, b1, 0, 0) == 512 <==> b0 == 0 && b1 == 2
    ensures Word(b0, b1, b2, b3) == 0 <==> b0 == 0 && b1 == 0 && b2 == 0 && b3 == 0
  {
  }

  lemma BootBlockIff(b: Block)
    ensures Signed(b) && IsFat32(b) <==> BootBlock(b)
  {
    hide Signed;
    hide Word;
    hide SmallPower;
    SignedIff(b);
    ClusterSizes(b[13]);
    WordIs(b[11], b[12], 0, 0);
    WordIs(b[17], b[18], b[19], b[20]);
  }

  /** A card is found exactly when the dialogue gets through, the register gives it a size, block 0
      is signed, and there is a boot block where the partition table says that a FAT32 partition
      starts, or in block 0 if that has no such table.  Then nothing is cached. */
  lemma DetectsIff(card: Card, c: Cache, d: Dialogue)
    ensures var n := Word(card(0)[454], card(0)[455], card(0)[456], card(0)[457]);
            Detect(card, c, d).1 <==>
              && d.csd.Some? && d.mbr && CardSize(d.csd.value) != 0 && Word(card(0)[510], card(0)[511], 0, 0) == 0xAA55
              && if card(0)[450] == 12 then d.pbr && BootBlock(card(n)) else card(0)[450] != 14 && BootBlock(card(0))
    ensures Detect(card, c, d).1 ==> Detect(card, c, d).0.mode == Empty
  {
    hide IsFat32;
    hide Signed;
    hide BootBlock;
    hide CardSize;
    hide CsdLeft;
    hide Word;
    SignedIff(card(0));
    BootBlockIff(card(0));
    BootBlockIff(card(PartOffset(card(0))));
  }

  /** What a detection has written to the buffer last. */
  datatype Seen = Nothing | Register(csd: Csd) | BlockAt(n: nat)

  function LastSeen(card: Card, d: Dialogue): Seen
  {
    if d.csd.None? then Nothing
    else if CardSize(d.csd.value) == 0 || !d.mbr then Register(d.csd.value)
    else if Signed(card(0)) && card(0)[450] == FAT32_TYPE && d.pbr then BlockAt(PartOffset(card(0)))
    else BlockAt(0)
  }

  /** The bytes written last are those of the cached block. */
  predicate Harmless(card: Card, blknum: nat, d: Dialogue)
  {
    match LastSeen(card, d)
    case Nothing => true
    case Register(csd) => CsdLeft(csd) == card(blknum)[..CSD_SIZE]
    case BlockAt(n) => card(n) == card(blknum)
  }

  /** A detection does not empty the cache when it fails.  The cache then stays right exactly
      when it was empty, or the detection ended before the register was received, or what it
      received last is what the cached block has in that place. */
  lemma FailedDetectionCoherentIff(card: Card, c: Cache, d: Dialogue)
    requires Coherent(card, c) && !Detect(card, c, d).1
    ensures Coherent(card, Detect(card, c, d).0) <==> c.mode == Empty || Harmless(card, c.blknum, d)
  {
    var buffer := Detect(card, c, d).0.block;
    match LastSeen(card, d)
    case Nothing =>
    case BlockAt(n) => assert buffer == card(n);
    case Register(csd) =>
      assert buffer[..CSD_SIZE] == CsdLeft(csd) && buffer[CSD_SIZE..] == c.block[CSD_SIZE..];
      assert buffer == buffer[..CSD_SIZE] + buffer[CSD_SIZE..];
      assert card(c.blknum) == card(c.blknum)[..CSD_SIZE] + card(c.blknum)[CSD_SIZE..];
  }

  // --- Runs ---------------------------------------------------------------------------

  datatype Step = DoRead(blknum: nat, r: ReadResult) | DoDetect(d: Dialogue)

  function Apply(card: Card, c: Cache, step: Step): Cache
  {
    match step
    case DoRead(blknum, r) => Read(c, blknum, r).0
    case DoDetect(d) => Detect(card, c, d).0
  }

  /** Reads may fail in any way; a detection that fails does no harm. */
  predicate Allowed(card: Card, c: Cache, step: Step)
  {
    match step
    case DoRead(blknum, r) => Answers(card, blknum, r)
    case DoDetect(d) => Detect(card, c, d).1 || c.mode == Empty || Harmless(card, c.blknum, d)
  }

  predicate Legal(card: Card, c: Cache, steps: seq<Step>)
    decreases |steps|
  {
    steps == [] || (Allowed(card, c, steps[0]) && Legal(card, Apply(card, c, steps[0]), steps[1..]))
  }

  function Exec(card: Card, c: Cache, steps: seq<Step>): Cache
    decreases |steps|
  {
    if steps == [] then c else Exec(card, Apply(card, c, steps[0]), steps[1..])
  }

  lemma {:induction false} RunIsCoherent(card: Card, c: Cache, steps: seq<Step>)
    requires Coherent(card, c) && Legal(card, c, steps)
    ensures Coherent(card, Exec(card, c, steps))
    decreases |steps|
  {
    if steps != [] {
      match steps[0] {
        case DoRead(blknum, r) => ReadIsRight(card, c, blknum, r);
        case DoDetect(d) => if !Detect(card, c, d).1 { FailedDetectionCoherentIff(card, c, d); }
      }
      RunIsCoherent(card, Apply(card, c, steps[0]), steps[1..]);
    }
  }

  /** After a successful detection, over any sequence of cached reads and detections with
      arbitrary failures of the reads, the cache never holds anything but the card's block. */
  lemma EveryRunIsCoherent(card: Card, c: Cache, d: Dialogue, steps: seq<Step>)
    requires Detect(card, c, d).1 && Legal(card, Detect(card, c, d).0, steps)
    ensures Coherent(card, Exec(card, Detect(card, c, d).0, steps))
  {
    RunIsCoherent(card, Detect(card, c, d).0, steps);
  }

  // --- A stale read -------------------------------------------------------------------

  /** A card with a partition table in block 0, a FAT32 boot block in block 1 and zeros. */
  function SampleByte(n: nat, i: nat): Byte
  {
    if n <= 1 && i == 510 then 0x55
    else if n <= 1 && i == 511 then 0xAA
    else if n == 0 && i == 450 then FAT32_TYPE
    else if n == 0 && i == 454 then 1
    else if n == 1 && (i == 12 || i == 16) then 2
    else if n == 1 && i == 13 then 1
    else if n == 1 && i == 21 then 0xF8
    else 0
  }

  function SampleBlock(n: nat): Block { seq(BLKSIZE, i requires 0 <= i => SampleByte(n, i)) }

  function SampleCard(): Card { n => SampleBlock(n) }

  /** A version 2 register of a card with 1024 blocks. */
  function SampleCsd(): Csd { seq(CSD_SIZE, i => if i == 0 then 0x40 else 0) }

  /** A detection succeeds, block 5 is read, and a second detection fails when it reads the
      partition's first block.  The next read of block 5 reports success, without asking the
      card, with the partition table in the buffer. */
  lemma StaleAfterFailedDetection(c0: Cache, r: ReadResult)
    ensures var card := SampleCard();
            var good, bad := Dialogue(Some(SampleCsd()), true, true), Dialogue(Some(SampleCsd()), true, false);
            && Detect(card, c0, good).1
            && var c := Exec(card, c0, [DoDetect(good), DoRead(5, Done(card(5))), DoDetect(bad)]);
               Read(c, 5, r) == (c, READY) && c.block == card(0) != card(5)
  {
    hide SampleBlock;
    hide SampleCsd;
    hide Signed;
    hide IsFat32;
    hide PartOffset;
    hide CardSize;
    hide CsdLeft;
    hide Exec;
    var card, csd := SampleCard(), SampleCsd();
    var good, bad := Dialogue(Some(csd), true, true), Dialogue(Some(csd), true, false);
    SampleFacts();
    SampleSize();
    assert Detect(card, c0, good) == (Cache(0, Empty, card(1)), true);
    var c2 := Cache(5, ReadMode, card(5));
    assert Detect(card, c2, bad) == (c2.(block := card(0)), false);
    ThreeSteps(card, c0, DoDetect(good), DoRead(5, Done(card(5))), DoDetect(bad));
  }

  lemma SampleFacts()
    ensures Signed(SampleBlock(0)) && SampleBlock(0)[450] == FAT32_TYPE && PartOffset(SampleBlock(0)) == 1
    ensures Signed(SampleBlock(1)) && IsFat32(SampleBlock(1))
    ensures SampleBlock(0) != SampleBlock(5)
  {
    hide Word;
    var b := SampleBlock(0);
    assert b[454] == 1 && b[455] == 0 && b[456] == 0 && b[457] == 0;
    LowWord(1);
    assert b[510] != SampleBlock(5)[510];
  }

  lemma ThreeSteps(card: Card, c: Cache, x: Step, y: Step, z: Step)
    ensures Exec(card, c, [x, y, z]) == Apply(card, Apply(card, Apply(card, c, x), y), z)
  {
    assert [x, y, z][1..] == [y, z] && [y, z][1..] == [z] && [z][1..] == [];
    assert Exec(card, c, [x, y, z]) == Exec(card, Apply(card, c, x), [y, z]);
    assert Exec(card, Apply(card, c, x), [y, z]) == Exec(card, Apply(card, Apply(card, c, x), y), [z]);
  }

  lemma SampleSize()
    ensures CardSize(SampleCsd()) == 1024
  {
    hide Shl32;
    hide Word;
    hide CSizeV1;
    hide ShiftV1;
    var csd := SampleCsd();
    assert csd[0] == 0x40 && csd[7] == 0 && csd[8] == 0 && csd[9] == 0;
    LowWord(0);
    FourTimes(0x100);
  }

  lemma LowWord(b: Byte)
    ensures Word(b, 0, 0, 0) == b
  {
  }

  lemma FourTimes(x: nat)
    requires 4 * x < WORD32
    ensures Shl32(x, 2) == 4 * x
  {
    assert Pow2(2) == 4;
  }

  // --- The FAT ---------------------------------------------------------------------------

  /** Byte `i` of the first FAT, as one flat array. */
  function FatByte(card: Card, fat1: nat, i: nat): Byte { card(fat1 + i / BLKSIZE)[i % BLKSIZE] }

  /** Entry `cluster` of the FAT as a flat table of 28-bit entries. */
  function FatEntry(card: Card, fat1: nat, cluster: nat): nat
  {
    Word(FatByte(card, fat1, 4 * cluster), FatByte(card, fat1, 4 * cluster + 1),
         FatByte(card, fat1, 4 * cluster + 2), FatByte(card, fat1, 4 * cluster + 3)) % 0x1000_0000
  }

  /** The 32-bit value at index `k` of a block, without its top four bits. */
  function EntryIn(b: Block, k: nat): nat
    requires k < 128
  {
    Word(b[4 * k], b[4 * k + 1], b[4 * k + 2], b[4 * k + 3]) % 0x1000_0000
  }

  lemma EntryPlace(cluster: nat, j: nat)
    requires j < 4
    ensures (4 * cluster + j) / BLKSIZE == cluster / 128 && (4 * cluster + j) % BLKSIZE == 4 * (cluster % 128) + j
  {
    var q, r := cluster / 128, cluster % 128;
    assert 4 * cluster + j == BLKSIZE * q + (4 * r + j);
  }

  lemma EntryIsFlat(card: Card, fat1: nat, cluster: nat)
    ensures EntryIn(card(fat1 + cluster / 128), cluster % 128) == FatEntry(card, fat1, cluster)
  {
    EntryPlace(cluster, 0);
    EntryPlace(cluster, 1);
    EntryPlace(cluster, 2);
    EntryPlace(cluster, 3);
  }

  class SdInfo {
    const card: Card
    var blknum: nat
    var mode: Mode
    var block: Block
    var fat1: nat
    var clusterCount: nat

    ghost function View(): Cache
      reads this
    {
      Cache(blknum, mode, block)
    }

    ghost predicate Valid()
      reads this
    {
      Coherent(card, View()) && clusterCount < WORD32
    }

    /** As a successful detection leaves it. */
    constructor (card: Card, left: Block, fat1: nat, clusterCount: nat)
      requires clusterCount < WORD32
      ensures Valid() && View() == Cache(0, Empty, left)
      ensures this.card == card && this.fat1 == fat1 && this.clusterCount == clusterCount
    {
      this.card := card;
      blknum, mode, block := 0, Empty, left;
      this.fat1, this.clusterCount := fat1, clusterCount;
    }

    /** sd_cache_read; `r` is what the card does if it is asked. */
    method CacheRead(n: nat, r: ReadResult) returns (status: int)
      requires Valid() && Answers(card, n, r)
      modifies this`blknum, this`mode, this`block
      ensures Valid() && (View(), status) == Read(old(View()), n, r)
      ensures status == READY ==> block == card(n)
    {
      if n == blknum && mode != Empty {
        return READY;
      }
      if mode != Empty {
        blknum := 0;
        mode := Empty;
      }
      match r {
        case Failed(code) =>
          return code;
        case Done(data) =>
          block := data;
      }
      blknum := n;
      mode := ReadMode;
      status := READY;
    }

    /** The block that fat_get reads; the sum is a 32-bit one. */
    function FatBlock(cluster: nat): nat
      reads this`fat1
    {
      (fat1 + cluster / 128) % WORD32
    }

    /** fat_get: whatever the cache holds, a success gives the entry of the flat table. */
    method FatGet(cluster: nat, r: ReadResult) returns (ok: bool, value: nat)
      requires Valid() && cluster < WORD32 && Answers(card, FatBlock(cluster), r)
      modifies this`blknum, this`mode, this`block
      ensures Valid()
      ensures ok ==> value == EntryIn(card(FatBlock(cluster)), cluster % 128)
      ensures ok && fat1 + cluster / 128 < WORD32 ==> value == FatEntry(card, fat1, cluster)
      ensures cluster > (clusterCount + 1) % WORD32 ==> !ok && View() == old(View())
      ensures cluster <= (clusterCount + 1) % WORD32 ==>
                (ok <==> (old(mode) != Empty && old(blknum) == FatBlock(cluster)) || r.Done?)
    {
      hide EntryIn;
      hide FatEntry;
      hide Read;
      ReadEffect(View(), FatBlock(cluster), r);
      if cluster > (clusterCount + 1) % WORD32 {
        return false, 0;
      }
      var status := CacheRead((fat1 + cluster / 128) % WORD32, r);
      if status != READY {
        return false, 0;
      }
      if fat1 + cluster / 128 < WORD32 {
        assert FatBlock(cluster) == fat1 + cluster / 128;
        EntryIsFlat(card, fat1, cluster);
      }
      return true, EntryIn(block, cluster % 128);
    }

    /** fat_get_next_cluster: the next cluster of the chain, or 0 at its end and on errors. */
    method NextCluster(cluster: nat, r: ReadResult) returns (next: nat)
      requires Valid() && cluster < WORD32 && Answers(card, FatBlock(cluster), r)
      modifies this`blknum, this`mode, this`block
      ensures Valid()
      ensures next < Fat.END_CLUSTER
      ensures next != 0 && fat1 + cluster / 128 < WORD32 ==> next == FatEntry(card, fat1, cluster)
      ensures ((old(mode) != Empty && old(blknum) == FatBlock(cluster)) || r.Done?)
              && cluster <= clusterCount + 1 < WORD32 && fat1 + cluster / 128 < WORD32 ==>
                next == if FatEntry(card, fat1, cluster) < Fat.END_CLUSTER then FatEntry(card, fat1, cluster) else 0
    {
      hide FatEntry;
      hide EntryIn;
      hide Read;
      var ok;
      ok, next := FatGet(cluster, r);
      if !(ok && next < Fat.END_CLUSTER) {
        next := 0;
      }
    }
  }
}
