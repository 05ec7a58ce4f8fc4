/**
 The geometry of a FAT32 volume as sd_detect computes it (os/drivers/sdcard/sdcard.c), in
 32-bit arithmetic, and where its clusters lie.
 */
module SdVolume {
  import opened Bits
  import opened SdAsm

  /** The loop that turns a cluster size into a shift count, on an 8-bit variable. */
  method ClusterShift(size: Byte) returns (shift: nat)
    requires size in [1, 2, 4, 8, 16, 32, 64, 128]
    ensures shift <= 7 && Pow2(shift) == size
  {
    hide Pow2;
    assert IsSize(1) && IsSize(size);
    hide IsSize;
    var status: int := 1;
    shift := 0;
    FirstPower();
    while status < size
      invariant shift <= 7 && status == Pow2(shift) && IsSize(status) && status <= size
      decreases 256 - status
    {
      NextPower(shift);
      NextSize(status, size);
      status := 2 * status % 256;
      shift := shift + 1;
    }
  }

  predicate IsSize(x: int) { x in [1, 2, 4, 8, 16, 32, 64, 128] }

  lemma NextSize(x: int, size: int)
    requires IsSize(x) && IsSize(size) && x < size
    ensures 0 < x && 2 * x % 256 == 2 * x <= size <= 128 && IsSize(2 * x)
  {
  }

  lemma FirstPower()
    ensures Pow2(0) == 1
  {
  }

  lemma NextPower(n: nat)
    ensures Pow2(n + 1) == 2 * Pow2(n) && (n >= 7 ==> Pow2(n) >= 128)
  {
    if n > 7 { NextPower(n - 1); }
  }

  /** The fields of the boot block that matter: partition, reserved blocks, FAT size, shift. */
  datatype Header = Header(partOffset: nat, partSize: nat, reserved: nat, fatSize: nat, shift: nat)

  datatype Geometry = Geometry(fat1: nat, fat2: nat, clusterOffset: nat, clusterCount: nat)

  predicate Fields(h: Header)
  {
    h.partOffset < WORD32 && h.partSize < WORD32 && h.reserved < 0x1_0000 && h.fatSize < WORD32 && h.shift <= 7
  }

  /** The end of sd_detect. */
  function Layout(h: Header): Geometry
  {
    var fat1 := h.reserved;
    var fat2 := (fat1 + h.fatSize) % WORD32;
    var offset := (fat2 + h.fatSize) % WORD32;
    var count := Shr((h.partSize - offset) % WORD32, h.shift);
    Geometry((fat1 + h.partOffset) % WORD32, (fat2 + h.partOffset) % WORD32, (offset + h.partOffset) % WORD32, count)
  }

  /** First block of the data area, counted from the start of the partition. */
  function DataStart(h: Header): nat { h.reserved + 2 * h.fatSize }

  /** Nothing overflows 32 bits. */
  predicate NoOverflow(h: Header) { Fields(h) && DataStart(h) < WORD32 && h.partOffset + h.partSize <= WORD32 }

  predicate Accepted(g: Geometry, cluster: nat) { 2 <= cluster < g.clusterCount + 2 }

  function BlockOf(h: Header, cluster: nat): nat
  {
    ClusterToBlock(cluster, Layout(h).clusterCount, h.shift, Layout(h).clusterOffset)
  }

  /** The blocks of the cluster lie in the data area of the partition. */
  predicate InDataArea(h: Header, cluster: nat)
  {
    h.partOffset + DataStart(h) <= BlockOf(h, cluster)
    && BlockOf(h, cluster) + Pow2(h.shift) <= h.partOffset + h.partSize
  }

  lemma MulMonotone(a: nat, b: nat, p: nat)
    requires a <= b
    ensures a * p <= b * p
  {
  }

  lemma Small(x: int)
    requires 0 <= x < WORD32
    ensures x % WORD32 == x
  {
  }

  lemma PowIsPositive(n: nat)
    ensures Pow2(n) >= 1
  {
  }

  // --- All boot blocks ------------------------------------------------------------------------

  lemma AddReduced(x: int, y: int)
    ensures (x % WORD32 + y) % WORD32 == (x + y) % WORD32
    ensures (y - x % WORD32) % WORD32 == (y - x) % WORD32
  {
    var q := x / WORD32;
    ModShift(x % WORD32 + y, q);
    ModShift(y - x % WORD32, -q);
  }

  /** The geometry of any boot block, in sums that are reduced once. */
  lemma LayoutReduced(h: Header)
    ensures Layout(h).clusterCount == Shr((h.partSize - DataStart(h)) % WORD32, h.shift)
    ensures Layout(h).clusterOffset == (h.partOffset + DataStart(h)) % WORD32
    ensures Layout(h).fat1 == (h.partOffset + h.reserved) % WORD32
    ensures Layout(h).fat2 == (h.partOffset + h.reserved + h.fatSize) % WORD32
  {
    hide Shr;
    AddReduced(h.reserved + h.fatSize, h.fatSize);
    AddReduced(h.reserved + h.fatSize, h.partOffset);
    AddReduced(DataStart(h), h.partSize);
    AddReduced(DataStart(h), h.partOffset);
  }

  lemma BlockReduced(h: Header, cluster: nat)
    requires Accepted(Layout(h), cluster)
    ensures BlockOf(h, cluster) == (h.partOffset + DataStart(h) + (cluster - 2) * Pow2(h.shift)) % WORD32
  {
    hide Layout;
    hide Pow2;
    LayoutReduced(h);
    var np, start := (cluster - 2) * Pow2(h.shift), h.partOffset + DataStart(h);
    AddReduced(start, np % WORD32);
    AddReduced(np, start);
  }

  /** On the fields of the boot block: the data area starts inside the partition and the last
      cluster that fits starts below 2^32, or there is no room for a cluster at all. */
  predicate AllFit(h: Header)
  {
    var d, p := DataStart(h), Pow2(h.shift);
    if d <= h.partSize then h.partSize - d < p || h.partOffset + d + (Shr(h.partSize - d, h.shift) - 1) * p < WORD32
    else (h.partSize - d) % WORD32 < p
  }

  /** When the data area starts inside the partition. */
  lemma StartInside(h: Header)
    requires Fields(h) && DataStart(h) <= h.partSize
    ensures Layout(h).clusterCount == Shr(h.partSize - DataStart(h), h.shift)
    ensures Layout(h).clusterCount * Pow2(h.shift) <= h.partSize - DataStart(h)
    ensures Layout(h).clusterCount == 0 <==> h.partSize - DataStart(h) < Pow2(h.shift)
  {
    hide Layout;
    hide Shr;
    hide Pow2;
    var room := h.partSize - DataStart(h);
    LayoutReduced(h);
    Small(room);
    PowIsPositive(h.shift);
    ShrBounds(room, h.shift);
    if Shr(room, h.shift) > 0 {
      MulMonotone(1, Shr(room, h.shift), Pow2(h.shift));
    }
  }

  lemma NoWrapInside(h: Header, c: nat, np: nat)
    requires BlockOf(h, c) == (h.partOffset + DataStart(h) + np) % WORD32
    requires h.partOffset + DataStart(h) + np < WORD32 && DataStart(h) + np + Pow2(h.shift) <= h.partSize
    ensures BlockOf(h, c) == h.partOffset + DataStart(h) + np && InDataArea(h, c)
  {
    hide BlockOf;
    hide Pow2;
    Small(h.partOffset + DataStart(h) + np);
  }

  lemma ClusterBelow(n: nat, count: nat, p: nat)
    requires n < count
    ensures n * p <= (count - 1) * p && n * p + p <= count * p
  {
    MulMonotone(n, count - 1, p);
    NextOne(n, count, p);
  }

  lemma InsideWhenFit(h: Header, c: nat)
    requires Fields(h) && DataStart(h) <= h.partSize && AllFit(h) && Accepted(Layout(h), c)
    ensures InDataArea(h, c)
  {
    hide Layout;
    hide Pow2;
    hide Shr;
    hide BlockOf;
    hide InDataArea;
    hide DataStart;
    StartInside(h);
    ClusterBelow(c - 2, Layout(h).clusterCount, Pow2(h.shift));
    BlockReduced(h, c);
    NoWrapInside(h, c, (c - 2) * Pow2(h.shift));
  }

  /** On a volume whose FATs fit, clusters lie one behind the other from the data start on. */
  lemma ClusterPlace(h: Header, cluster: nat)
    requires NoOverflow(h) && DataStart(h) <= h.partSize && Accepted(Layout(h), cluster)
    ensures BlockOf(h, cluster) == h.partOffset + DataStart(h) + (cluster - 2) * Pow2(h.shift)
    ensures InDataArea(h, cluster)
  {
    hide Layout;
    hide Shr;
    hide Pow2;
    hide BlockOf;
    hide InDataArea;
    hide DataStart;
    StartInside(h);
    ClusterBelow(cluster - 2, Layout(h).clusterCount, Pow2(h.shift));
    BlockReduced(h, cluster);
    PowIsPositive(h.shift);
    NoWrapInside(h, cluster, (cluster - 2) * Pow2(h.shift));
  }

  /** Different clusters have no block in common. */
  lemma ClustersAreDisjoint(h: Header, c: nat, d: nat)
    requires NoOverflow(h) && DataStart(h) <= h.partSize
    requires Accepted(Layout(h), c) && Accepted(Layout(h), d) && c < d
    ensures BlockOf(h, c) + Pow2(h.shift) <= BlockOf(h, d)
  {
    ClusterPlace(h, c);
    ClusterPlace(h, d);
    hide BlockOf;
    hide Layout;
    hide Pow2;
    NextOne(c - 2, d - 2, Pow2(h.shift));
  }

  lemma NextOne(a: nat, b: nat, p: nat)
    requires a < b
    ensures a * p + p <= b * p
  {
    MulMonotone(a + 1, b, p);
    assert (a + 1) * p == a * p + p;
  }

  lemma WrapOutside(h: Header, c: nat, np: nat)
    requires BlockOf(h, c) == (h.partOffset + DataStart(h) + np) % WORD32
    requires WORD32 <= h.partOffset + DataStart(h) + np < 2 * WORD32 && np < WORD32
    ensures !InDataArea(h, c)
  {
    hide BlockOf;
    hide Pow2;
    var x := h.partOffset + DataStart(h) + np;
    ModShift(x, -1);
    Small(x - WORD32);
  }

  lemma LastOutside(h: Header)
    requires Fields(h) && DataStart(h) <= h.partSize && !AllFit(h)
    ensures var c := Layout(h).clusterCount + 1; Accepted(Layout(h), c) && !InDataArea(h, c)
  {
    hide Layout;
    hide Pow2;
    hide Shr;
    hide BlockOf;
    hide InDataArea;
    hide DataStart;
    StartInside(h);
    var count := Layout(h).clusterCount;
    BlockReduced(h, count + 1);
    ClusterBelow(count - 1, count, Pow2(h.shift));
    WrapOutside(h, count + 1, (count - 1) * Pow2(h.shift));
  }

  lemma SecondOutside(h: Header)
    requires Fields(h) && DataStart(h) > h.partSize
    ensures Layout(h).clusterCount == 0 <==> AllFit(h)
    ensures Layout(h).clusterCount > 0 ==> Accepted(Layout(h), 2) && !InDataArea(h, 2)
  {
    hide Layout;
    hide Shr;
    hide Pow2;
    hide BlockOf;
    var room := (h.partSize - DataStart(h)) % WORD32;
    LayoutReduced(h);
    PowIsPositive(h.shift);
    ShrBounds(room, h.shift);
    if Shr(room, h.shift) > 0 {
      MulMonotone(1, Shr(room, h.shift), Pow2(h.shift));
      BlockReduced(h, 2);
    }
  }

  /** For every boot block that is accepted: all accepted clusters lie in the data area exactly
      when the fields fit.  Otherwise a 32-bit sum or difference wraps. */
  lemma AllInsideIff(h: Header)
    requires Fields(h)
    ensures (forall c :: Accepted(Layout(h), c) ==> InDataArea(h, c)) <==> AllFit(h)
  {
    hide Layout;
    hide InDataArea;
    hide AllFit;
    if DataStart(h) > h.partSize {
      SecondOutside(h);
    } else if AllFit(h) {
      forall c | Accepted(Layout(h), c) ensures InDataArea(h, c) {
        InsideWhenFit(h, c);
      }
    } else {
      LastOutside(h);
    }
  }

  // --- The FAT ----------------------------------------------------------------------------------

  /** The block in which fat_get looks up the entry of a cluster. */
  function FatBlockOf(h: Header, cluster: nat): nat { (Layout(h).fat1 + cluster / 128) % WORD32 }

  /** Blocks from the first block of the first FAT, in 32 bits. */
  function FromFat(h: Header, block: nat): nat { (block - Layout(h).fat1) % WORD32 }

  /** The largest cluster number that fat_get accepts. */
  function LastCluster(h: Header): nat { (Layout(h).clusterCount + 1) % WORD32 }

  lemma EntryInFat(h: Header, c: nat)
    requires c < WORD32
    ensures FromFat(h, FatBlockOf(h, c)) == c / 128
  {
    hide Layout;
    var fat1: int := Layout(h).fat1;
    AddReduced(fat1 + c / 128, -fat1);
    Small(c / 128);
  }

  /** For every boot block that is accepted: all clusters that fat_get accepts have their entry in
      the first FAT exactly when the FAT is as long as the largest of them asks for. */
  lemma EntriesInFatIff(h: Header)
    ensures (forall c :: 0 <= c <= LastCluster(h) ==> FromFat(h, FatBlockOf(h, c)) < h.fatSize) <==>
            LastCluster(h) / 128 < h.fatSize
  {
    hide Layout;
    hide FatBlockOf;
    hide FromFat;
    forall c | 0 <= c <= LastCluster(h) ensures FromFat(h, FatBlockOf(h, c)) == c / 128 {
      EntryInFat(h, c);
    }
    assert FromFat(h, FatBlockOf(h, LastCluster(h))) == LastCluster(h) / 128;
  }

  /** A volume of 1000 clusters of one block with FATs of one block: the entry of cluster 128 is
      looked up in the second FAT. */
  lemma FatTooShort()
    ensures var h := Header(0, 1034, 32, 1, 0);
            && NoOverflow(h) && DataStart(h) <= h.partSize && Accepted(Layout(h), 128)
            && FatBlockOf(h, 128) == Layout(h).fat2
  {
    var h := Header(0, 1034, 32, 1, 0);
    assert Layout(h) == Geometry(32, 33, 34, 1000);
  }

  /** A concrete volume of 100 blocks with FATs of 60 blocks each: cluster 2 is outside it. */
  lemma FatsDoNotFit()
    ensures var h := Header(0, 100, 32, 60, 0); NoOverflow(h) && Accepted(Layout(h), 2) && !InDataArea(h, 2)
  {
    var h := Header(0, 100, 32, 60, 0);
    assert Pow2(0) == 1;
    assert Layout(h) == Geometry(32, 92, 152, (100 - 152) % WORD32);
    ShlZero(0);
  }

  /** 0 stands for "no such cluster" alone, as long as there is anything in front of the data. */
  lemma ZeroMeansInvalid(h: Header, cluster: nat)
    requires NoOverflow(h) && DataStart(h) <= h.partSize && h.partOffset + DataStart(h) > 0
    ensures BlockOf(h, cluster) == 0 <==> !Accepted(Layout(h), cluster)
  {
    if Accepted(Layout(h), cluster) { ClusterPlace(h, cluster); }
  }
}
