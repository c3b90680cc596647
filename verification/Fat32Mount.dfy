/** A mounted FAT32 volume: the driver's routines on the allocation table and on
    single clusters, each proved against the abstract volume its sectors encode. */
module Fat32Mount {
  import opened Bytes
  import opened Fat32Volume
  import opened Fat32Layout

  /** A block device whose transfers fail only beyond its end, as a partition's do. */
  class BlockDevice {
    const sectorSize: nat
    const sectorCount: nat
    var sectors: seq<seq<byte>>

    constructor (sectorSize: nat, content: seq<seq<byte>>)
      ensures this.sectorSize == sectorSize && sectorCount == |content| && sectors == content
    {
      this.sectorSize, this.sectorCount, this.sectors := sectorSize, |content|, content;
    }

    method Read(sector: nat, count: nat) returns (buf: seq<byte>)
      requires sector + count <= |sectors|
      ensures buf == Flatten(sectors[sector..sector + count])
    {
      buf := Flatten(sectors[sector..sector + count]);
    }

    method Write(buf: seq<byte>, sector: nat, count: nat) returns (ok: bool)
      requires sectorSize > 0 && |Cut(buf, sectorSize)| == count
      modifies this
      ensures ok <==> sector + count <= |old(sectors)|
      ensures sectors == if ok then Overwrite(old(sectors), sector, Cut(buf, sectorSize)) else old(sectors)
    {
      if sector + count > |sectors| { return false; }
      sectors := Overwrite(sectors, sector, Cut(buf, sectorSize));
      ok := true;
    }
  }

  /** How far into the boot sector the fields reach that mounting reads. */
  const BOOT_FIELDS := 48

  /** The geometry a boot sector gives ("BPB" of the FAT specification). */
  function GeometryOf(sectorSize: nat, sectorCount: nat, boot: seq<byte>): Geometry
    requires |boot| >= BOOT_FIELDS
  {
    Geometry(sectorSize, sectorCount, Dec(boot[14..16]), WordAt(boot, 36), boot[13])
  }

  function RootOf(boot: seq<byte>): u32
    requires |boot| >= BOOT_FIELDS
  {
    WordAt(boot, 44)
  }

  /** The fields of a boot sector read back, wherever the rest of it comes from. */
  lemma BootFieldsReadBack(boot: seq<byte>, reserved: nat, spc: byte, fats: byte, fatSize: u32, root: u32,
                           sectorSize: nat, sectorCount: nat)
    requires |boot| >= BOOT_FIELDS && reserved < 0x1_0000
    requires boot[13..17] == [spc] + Enc(reserved, 2) + [fats]
    requires boot[36..40] == Enc(fatSize, 4) && boot[44..48] == Enc(root, 4)
    ensures GeometryOf(sectorSize, sectorCount, boot) == Geometry(sectorSize, sectorCount, reserved, fatSize, spc)
    ensures boot[16] == fats && RootOf(boot) == root
  {
    Pow256Values();
    DecEnc(reserved, 2);
    DecEnc(fatSize, 4);
    DecEnc(root, 4);
    hide Enc, Dec, Pow256;
    var front := boot[13..17];
    assert boot[13] == front[0] && boot[16] == front[3];
    SliceOfSlice(boot, 13, 4, 1, 3);
    assert front[1..3] == Enc(reserved, 2);
  }

  class FAT32Mount {
    const device: BlockDevice
    const fatStart: nat
    const dataStart: nat
    const rootCluster: nat
    const sectorsPerFAT: nat
    const bytesPerCluster: nat
    const sectorsPerCluster: nat

    /** Decodes the boot sector. There are to be two tables: the second one is written unconditionally. */
    constructor (device: BlockDevice)
      requires |device.sectors| > 0 && |device.sectors[0]| >= BOOT_FIELDS && device.sectors[0][16] == 2
      requires ValidDisk(GeometryOf(device.sectorSize, device.sectorCount, device.sectors[0]), device.sectors)
      ensures Valid() && this.device == device && rootCluster == RootOf(device.sectors[0])
      ensures Geo() == GeometryOf(device.sectorSize, device.sectorCount, device.sectors[0])
    {
      OneRow(device.sectors, 0);
      var buf := device.Read(0, 1);
      var rsvd := Dec(buf[14..16]);
      var fats := buf[16];
      var fatSz32 := WordAt(buf, 36);
      this.device := device;
      this.fatStart := rsvd;
      this.dataStart := rsvd + fats * fatSz32;
      this.rootCluster := WordAt(buf, 44);
      this.sectorsPerFAT := fatSz32;
      this.bytesPerCluster := buf[13] * device.sectorSize;
      this.sectorsPerCluster := buf[13];
    }

    ghost function Geo(): Geometry {
      Geometry(device.sectorSize, device.sectorCount, fatStart, sectorsPerFAT, sectorsPerCluster)
    }

    ghost predicate Valid()
      reads device
    {
      && dataStart == Geo().DataStart()
      && bytesPerCluster == Geo().BytesPerCluster()
      && ValidDisk(Geo(), device.sectors)
    }

    /** The volume the device holds. */
    ghost function Vol(): (v: Volume)
      requires Valid()
      reads device
      ensures WellFormed(v) && v.bpc == bytesPerCluster
    {
      VolumeIsWellFormed(Geo(), device.sectors);
      VolumeOf(Geo(), device.sectors)
    }

    method ReadCluster(cluster: nat) returns (buf: seq<byte>)
      requires Valid() && IsCluster(Vol(), cluster)
      ensures buf == Vol().data[cluster] && |buf| == bytesPerCluster
    {
      ClusterSectors(Geo(), cluster);
      var firstSector := (dataStart + (cluster - 2) * sectorsPerCluster) % 0x1_0000_0000;
      buf := device.Read(firstSector, sectorsPerCluster);
    }

    /** Fails for a number that the allocator scans but that is no cluster of the device. */
    method WriteCluster(buf: seq<byte>, cluster: nat) returns (ok: bool)
      requires Valid() && |buf| == bytesPerCluster
      requires IsCluster(Vol(), cluster) || |Vol().data| <= cluster < Geo().LoopLimit()
      modifies device
      ensures Valid() && ok == IsCluster(old(Vol()), cluster)
      ensures Vol() == if ok then SetData(old(Vol()), cluster, buf) else old(Vol())
      ensures !ok ==> device.sectors == old(device.sectors)
    {
      hide ValidDisk, VolumeOf, Cut, Overwrite, SetData;
      DiskBounds(Geo(), device.sectors);
      ClusterWrite(Geo(), device.sectors, cluster, buf);
      var firstSector := (dataStart + (cluster - 2) * sectorsPerCluster) % 0x1_0000_0000;
      ok := device.Write(buf, firstSector, sectorsPerCluster);
    }

    /** The table sector of entry `cluster` and the entry's offset in it. */
    method LocateEntry(cluster: nat) returns (fatSector: nat, entryOffset: nat)
      requires Valid() && cluster < |Table(Geo(), device.sectors)|
      ensures IsEntry(Geo(), device.sectors, cluster, fatSector, entryOffset)
      ensures cluster * 4 == (fatSector - fatStart) * device.sectorSize + entryOffset
    {
      hide VolumeOf, ValidDisk, Table, IsEntry;
      DiskBounds(Geo(), device.sectors);
      EntryIsThere(Geo(), device.sectors, cluster);
      var fatOffset := cluster * 4;
      fatSector := fatStart + fatOffset / device.sectorSize;
      entryOffset := fatOffset % device.sectorSize;
      assert fatSector - fatStart == fatOffset / device.sectorSize;
    }

    method GetNextCluster(cluster: nat) returns (next: nat)
      requires Valid() && cluster < |Vol().fat|
      ensures next == Next(Vol(), cluster)
    {
      EntryOfCluster(Geo(), device.sectors, cluster);
      var fatSector, entryOffset := LocateEntry(cluster);
      var buf := device.Read(fatSector, 1);
      OneRow(device.sectors, fatSector);
      next := WordAt(buf, entryOffset) % LINK;
    }

    method SetNextCluster(cluster: nat, value: nat) returns (ok: bool)
      requires Valid() && cluster < |Vol().fat|
      modifies device
      ensures Valid() && ok && Vol() == SetNext(old(Vol()), cluster, value)
    {
      EntryOfCluster(Geo(), device.sectors, cluster);
      var fatSector, entryOffset := LocateEntry(cluster);
      var rwSectors := if entryOffset > device.sectorSize - 4 then 2 else 1;
      var buf := device.Read(fatSector, rwSectors);
      OneRow(device.sectors, fatSector);
      var entry := WordAt(buf, entryOffset);
      buf := PutWord(buf, entryOffset, Linked(entry, value));
      WriteTableSector(cluster, buf, fatSector, entryOffset, Linked(entry, value));
      ok := true;
    }

    /** Writes a table sector with one patched entry, and the same sector of the second copy. */
    method WriteTableSector(ghost cluster: nat, buf: seq<byte>, fatSector: nat, ghost off: nat, ghost value: u32)
      requires Valid() && IsEntry(Geo(), device.sectors, cluster, fatSector, off)
      requires fatSector < |device.sectors| && off + 4 <= |device.sectors[fatSector]|
      requires buf == PutWord(device.sectors[fatSector], off, value)
      modifies device
      ensures Valid() && Vol() == WithEntry(old(Vol()), cluster, value)
      ensures Table(Geo(), device.sectors) == old(Table(Geo(), device.sectors))[cluster := value]
    {
      hide VolumeOf, ValidDisk, ValidGeometry, Cut, Overwrite, Table, WithEntry, PutWord, IsEntry;
      TwoWrites(Geo(), device.sectors, cluster, buf, fatSector, off, value);
      var first := device.Write(buf, fatSector, 1);
      var second := device.Write(buf, fatSector + sectorsPerFAT, 1);
    }

    /** Takes the lowest free cluster, or reports end-of-chain on a full volume. The scan then still comes to
        entries behind those of the clusters: it marks the lowest free one, but no cluster can be written for it. */
    method AllocCluster() returns (cluster: nat)
      requires Valid()
      modifies device
      ensures Valid()
      ensures FreeSet(old(Vol())) == {} ==> cluster == ENDOFCHAIN && Vol() == old(Vol())
      ensures FreeSet(old(Vol())) != {} ==>
        && cluster == FirstFree(old(Vol()), 2) && cluster in FreeSet(old(Vol()))
        && Vol() == Take(old(Vol()), cluster)
      ensures FreeSet(old(Vol())) == {} ==>
        var t := old(Table(Geo(), device.sectors)); var i := FirstUnused(t, 2, Geo().LoopLimit());
        Table(Geo(), device.sectors) == if i < Geo().LoopLimit() && i < |t| then t[i := ENDOFCHAIN] else t
    {
      hide VolumeOf, ValidDisk, Table, FirstUnused, Take, FreeSet;
      DiskBounds(Geo(), device.sectors);
      ghost var v, table := Vol(), Table(Geo(), device.sectors);
      FirstFreeIsFree(v);
      var buf := device.Read(fatStart, sectorsPerFAT);
      var loopLimit := ScanLimit();
      var i: nat := 2;
      while i < loopLimit
        invariant 2 <= i && device.sectors == old(device.sectors)
        invariant forall k :: 2 <= k < i && k < |v.data| ==> Next(v, k) != 0
        invariant FirstUnused(table, 2, loopLimit) == FirstUnused(table, i, loopLimit)
      {
        var fatOffset := i * 4;
        TableWord(Geo(), device.sectors, i);
        UnusedStep(table, i, loopLimit);
        var value := WordAt(buf, fatOffset);
        if value % LINK == 0 {
          FirstFreeIs(v, i);
          var ok := TakeCluster(buf, i);
          return if ok then i else ENDOFCHAIN;
        }
        i := i + 1;
      }
      FirstFreeIs(v, i);
      UnusedStep(table, i, loopLimit);
      cluster := ENDOFCHAIN;
    }

    method ScanLimit() returns (loopLimit: nat)
      requires Valid()
      ensures loopLimit == Geo().LoopLimit()
    {
      var totalClusters := device.sectorCount / sectorsPerCluster;
      var maxFatEntries := sectorsPerFAT * device.sectorSize / 4;
      loopLimit := if totalClusters < maxFatEntries then totalClusters else maxFatEntries;
    }

    /** Marks the free entry `i` as a chain of its own and zeroes its cluster; `buf` holds the table. */
    method TakeCluster(buf: seq<byte>, i: nat) returns (ok: bool)
      requires Valid() && 2 <= i < Geo().LoopLimit() && fatStart + sectorsPerFAT <= |device.sectors|
      requires buf == Flatten(device.sectors[fatStart..fatStart + sectorsPerFAT])
      modifies device
      ensures Valid() && ok == IsCluster(old(Vol()), i)
      ensures Vol() == if ok then Take(old(Vol()), i) else old(Vol())
      ensures !ok ==> i < |old(Table(Geo(), device.sectors))| &&
                      Table(Geo(), device.sectors) == old(Table(Geo(), device.sectors))[i := ENDOFCHAIN]
    {
      hide VolumeOf, ValidDisk, Table, Take, SetData, WithEntry, Flatten, Uniform;
      DiskBounds(Geo(), device.sectors);
      TableWord(Geo(), device.sectors, i);
      TakenIs(Vol(), i);
      var patched := PutWord(buf, i * 4, ENDOFCHAIN);
      var fatSector, off := LocateEntry(i);
      var bufOffset := (fatSector - fatStart) * device.sectorSize;
      TableRow(Geo(), device.sectors, i, fatSector, off, ENDOFCHAIN);
      WriteTableSector(i, patched[bufOffset..bufOffset + device.sectorSize], fatSector, off, ENDOFCHAIN);
      ok := WriteCluster(Zeros(bytesPerCluster), i);
    }

    /** The loop that follows a chain for a given number of links. */
    method Walk(start: nat, steps: nat, ghost chain: seq<nat>) returns (cluster: nat)
      requires Valid() && IsChain(Vol(), chain) && chain[0] == start && steps <= |chain|
      ensures if steps < |chain| then cluster == chain[steps] else cluster >= ENDOFCHAIN
    {
      hide Vol, Valid;
      cluster := start;
      for i := 0 to steps
        invariant if i < |chain| then cluster == chain[i] else cluster >= ENDOFCHAIN
      {
        assert IsCluster(Vol(), chain[i]);
        cluster := GetNextCluster(cluster);
      }
    }

    /** Allocates a cluster and links it behind `last`, if there is one. */
    method AppendCluster(last: nat, linked: bool) returns (cluster: nat)
      requires Valid() && (linked ==> IsCluster(Vol(), last) && last !in FreeSet(Vol()))
      modifies device
      ensures Valid()
      ensures FirstFree(old(Vol()), 2) >= |old(Vol()).data| ==> cluster == ENDOFCHAIN && Vol() == old(Vol())
      ensures FirstFree(old(Vol()), 2) < |old(Vol()).data| ==>
        && cluster == FirstFree(old(Vol()), 2) && cluster in FreeSet(old(Vol()))
        && Vol() == (if linked then TakeAndLink(old(Vol()), last, cluster) else Take(old(Vol()), cluster))
    {
      hide Vol, Valid;
      FirstFreeIsFree(Vol());
      cluster := AllocCluster();
      if cluster < ENDOFCHAIN && linked {
        var done := SetNextCluster(last, cluster);
      }
    }

    /** `*startCluster` is the in-out parameter `start`. */
    method ExtendFile(start: nat, existing: nat, needed: nat, ghost chain: seq<nat>) returns (ok: bool, newStart: nat)
      requires Valid()
      requires existing > 0 ==> IsChain(Vol(), chain) && |chain| == existing && chain[0] == start
      modifies device
      ensures Valid()
      ensures needed <= existing ==> ok && newStart == start && Vol() == old(Vol())
      ensures existing < needed ==>
        var g := Extended(old(Vol()), if existing > 0 then Last(chain) else start, existing > 0, needed - existing);
        && ok == g.ok && Vol() == g.vol
        && newStart == if existing == 0 && FreeSet(old(Vol())) != {} then FirstFree(old(Vol()), 2) else start
    {
      hide Vol, Valid;
      newStart := start;
      if needed <= existing { return true, newStart; }
      var clustersAdd := needed - existing;
      var lastCluster: nat := start;
      if existing > 0 {
        lastCluster := Walk(start, existing - 1, chain);
        ChainIsInUse(Vol(), chain);
        assert lastCluster in chain;
      }
      ok, newStart := AppendClusters(start, lastCluster, existing > 0, clustersAdd);
    }

    /** The allocation loop of an extension. */
    method AppendClusters(start: nat, last: nat, linked: bool, clustersAdd: nat) returns (ok: bool, newStart: nat)
      requires Valid() && clustersAdd > 0 && (linked ==> IsCluster(Vol(), last) && last !in FreeSet(Vol()))
      modifies device
      ensures Valid()
      ensures var g := Extended(old(Vol()), last, linked, clustersAdd);
        && ok == g.ok && Vol() == g.vol
        && newStart == if !linked && FreeSet(old(Vol())) != {} then FirstFree(old(Vol()), 2) else start
    {
      hide Vol, Valid;
      newStart := start;
      FirstFreeIsFree(Vol());
      ghost var v := Vol();
      ghost var g := Extended(v, last, linked, clustersAdd);
      var lastCluster: nat := last;
      var i: nat := 0;
      while i < clustersAdd
        invariant 0 <= i <= clustersAdd && Valid()
        invariant i == 0 ==> Vol() == v && newStart == start && lastCluster == last
        invariant linked || i > 0 ==>
          && IsCluster(Vol(), lastCluster) && lastCluster !in FreeSet(Vol())
          && Grow(Vol(), lastCluster, clustersAdd - i).vol == g.vol
          && Grow(Vol(), lastCluster, clustersAdd - i).ok == g.ok
        invariant i > 0 ==>
          && Vol().fat[lastCluster] == ENDOFCHAIN && FreeSet(v) != {}
          && newStart == if linked then start else FirstFree(v, 2)
      {
        ghost var v1 := Vol();
        var newCluster := AppendCluster(lastCluster, linked || i > 0);
        if newCluster >= ENDOFCHAIN { return false, newStart; }
        if !linked && i == 0 { newStart := newCluster; }
        lastCluster := newCluster;
        i := i + 1;
      }
      assert SetNext(Vol(), lastCluster, ENDOFCHAIN).fat == Vol().fat;
      ok := SetNextCluster(lastCluster, ENDOFCHAIN);
    }

    /** Frees the chain, then takes its first cluster back. */
    method ResetClusterChain(start: nat, ghost chain: seq<nat>) returns (ok: bool)
      requires Valid() && IsChain(Vol(), chain) && chain[0] == start
      modifies device
      ensures Valid() && ok && Vol() == Reset(old(Vol()), chain)
    {
      hide Vol, Valid;
      ghost var v := Vol();
      ChainIsDistinct(v, chain);
      ghost var k := 0;
      var cluster := start;
      while cluster < ENDOFCHAIN
        invariant Valid() && 0 <= k <= |chain| && |Vol().fat| == |v.fat| && |Vol().data| == |v.data|
        invariant if k < |chain| then cluster == chain[k] else cluster >= ENDOFCHAIN
        invariant forall j :: k <= j < |chain| ==> Vol().fat[chain[j]] == v.fat[chain[j]]
        invariant Unlink(Vol(), chain[k..]) == Unlink(v, chain)
        decreases |chain| - k
      {
        assert IsCluster(v, chain[k]);
        var next := GetNextCluster(cluster);
        var cleared := SetNextCluster(cluster, 0x00000000);
        assert chain[k..][1..] == chain[k + 1..];
        cluster := next;
        k := k + 1;
      }
      ok := SetNextCluster(start, ENDOFCHAIN);
    }
  }

  /** The lowest entry from `i` on, below `limit`, that says free; `limit` or more if there is none. */
  function FirstUnused(table: seq<u32>, i: nat, limit: nat): nat
    decreases limit - i
  {
    if i >= limit || (i < |table| && table[i] % LINK == 0) then i else FirstUnused(table, i + 1, limit)
  }

  lemma {:induction false} FirstUnusedIs(table: seq<u32>, i: nat, limit: nat)
    requires i <= limit <= |table|
    ensures var k := FirstUnused(table, i, limit);
      && i <= k <= limit && (k < limit ==> table[k] % 0x1000_0000 == 0)
      && forall j :: i <= j < k ==> table[j] % 0x1000_0000 != 0
    decreases limit - i
  {
    if i < limit && table[i] % LINK != 0 { FirstUnusedIs(table, i + 1, limit); }
  }

  lemma UnusedStep(table: seq<u32>, i: nat, limit: nat)
    ensures i >= limit ==> FirstUnused(table, i, limit) == i
    ensures i < limit && i < |table| ==>
      FirstUnused(table, i, limit) == if table[i] % LINK == 0 then i else FirstUnused(table, i + 1, limit)
  {
  }

  /** Where a scan of entries in use has come to. */
  lemma FirstFreeIs(v: Volume, i: nat)
    requires WellFormed(v) && 2 <= i && forall k :: 2 <= k < i && k < |v.data| ==> Next(v, k) != 0
    ensures i >= |v.data| ==> FirstFree(v, 2) == |v.data|
    ensures i < |v.data| && Next(v, i) == 0 ==> i == FirstFree(v, 2) && i in FreeSet(v)
  {
  }

  /** Marking the entry and zeroing the cluster is taking it. */
  lemma TakenIs(v: Volume, i: nat)
    requires |v.fat| == |v.data|
    ensures if i < |v.data| then |WithEntry(v, i, ENDOFCHAIN).data| == |v.data| &&
                                 SetData(WithEntry(v, i, ENDOFCHAIN), i, Zeros(v.bpc)) == Take(v, i)
            else WithEntry(v, i, ENDOFCHAIN) == v
    ensures WithEntry(v, i, ENDOFCHAIN).data == v.data && WithEntry(v, i, ENDOFCHAIN).bpc == v.bpc
  {
  }

  lemma OneRow(sectors: seq<seq<byte>>, q: nat)
    requires q < |sectors|
    ensures Flatten(sectors[q..q + 1]) == sectors[q]
  {
    assert sectors[q..q + 1] == [sectors[q]];
    assert Flatten([sectors[q]]) == sectors[q] + Flatten<byte>([]);
  }

  lemma OneCut(p: seq<byte>, w: nat)
    requires |p| == w > 0
    ensures Cut(p, w) == [p]
  {
    assert p[w..] == [] && p[..w] == p;
    assert Cut<byte>([], w) == [];
  }

  /** Patching offset `off` of sector `q`, in both copies, is what sets table entry `c`. */
  ghost predicate IsEntry(g: Geometry, sectors: seq<seq<byte>>, c: nat, q: nat, off: nat)
    requires ValidDisk(g, sectors)
  {
    && c < |Table(g, sectors)|
    && g.fatStart <= q < g.fatStart + g.sectorsPerFAT && off + 4 <= g.sectorSize
    && Table(g, sectors)[c] == WordAt(sectors[q], off)
    && forall value: u32 :: Patched(g, sectors, c, q, off, value)
  }

  ghost predicate Patched(g: Geometry, sectors: seq<seq<byte>>, c: nat, q: nat, off: nat, value: u32)
    requires ValidDisk(g, sectors) && c < |Table(g, sectors)|
    requires g.fatStart <= q < g.fatStart + g.sectorsPerFAT && off + 4 <= g.sectorSize
  {
    && ValidDisk(g, PatchFat(g, sectors, q, off, value))
    && VolumeOf(g, PatchFat(g, sectors, q, off, value)) == WithEntry(VolumeOf(g, sectors), c, value)
    && Table(g, PatchFat(g, sectors, q, off, value)) == Table(g, sectors)[c := value]
  }

  lemma EntryIsThere(g: Geometry, sectors: seq<seq<byte>>, c: nat)
    requires ValidDisk(g, sectors) && c < |Table(g, sectors)|
    ensures 0 <= c * 4 / g.sectorSize && 0 <= c * 4 % g.sectorSize
    ensures IsEntry(g, sectors, c, g.fatStart + c * 4 / g.sectorSize, c * 4 % g.sectorSize)
    ensures c * 4 == c * 4 / g.sectorSize * g.sectorSize + c * 4 % g.sectorSize
  {
    var q, i := EntryPlace(g, sectors, c);
    assert c * 4 == q * g.sectorSize + 4 * i;
    forall value: u32 {:trigger Patched(g, sectors, c, g.fatStart + q, 4 * i, value)}
      ensures Patched(g, sectors, c, g.fatStart + q, 4 * i, value)
    {
      PatchFatEffect(g, sectors, c, q, i, value);
    }
  }

  lemma EntryOfCluster(g: Geometry, sectors: seq<seq<byte>>, c: nat)
    requires ValidDisk(g, sectors) && c < |VolumeOf(g, sectors).fat|
    ensures c < |Table(g, sectors)| && VolumeOf(g, sectors).fat[c] == Table(g, sectors)[c]
  {
  }

  lemma DiskBounds(g: Geometry, sectors: seq<seq<byte>>)
    requires ValidDisk(g, sectors)
    ensures 0 < g.sectorSize && 0 < g.sectorsPerCluster && g.DataStart() <= |sectors| == g.sectorCount
    ensures |VolumeOf(g, sectors).fat| == |VolumeOf(g, sectors).data| == g.ClusterLimit() < ENDOFCHAIN
    ensures g.ClusterLimit() <= g.LoopLimit() <= |Table(g, sectors)|
    ensures VolumeOf(g, sectors).fat == Table(g, sectors)[..g.ClusterLimit()]
    ensures Uniform(sectors, g.sectorSize)
  {
    VolumeIsWellFormed(g, sectors);
    TableSize(g, sectors);
  }

  lemma AtLeastTwo(g: Geometry)
    requires ValidGeometry(g)
    ensures g.ClusterLimit() < g.LoopLimit() ==> g.ClusterLimit() >= 2
  {
    QuotientIsNat(g.sectorCount - g.DataStart(), g.sectorsPerCluster);
  }

  lemma QuotientIsNat(a: nat, b: nat)
    requires b > 0
    ensures a / b >= 0
  {
  }

  /** Where a cluster is written, and to what effect. */
  lemma ClusterWrite(g: Geometry, sectors: seq<seq<byte>>, c: nat, buf: seq<byte>)
    requires ValidDisk(g, sectors) && |buf| == g.BytesPerCluster() && |sectors| == g.sectorCount
    requires 2 <= c < g.ClusterLimit() || g.ClusterLimit() <= c < g.LoopLimit()
    ensures c >= 2 && |Cut(buf, g.sectorSize)| == g.sectorsPerCluster
    ensures 0 <= (c - 2) * g.sectorsPerCluster
    ensures var first := (g.DataStart() + (c - 2) * g.sectorsPerCluster) % 0x1_0000_0000;
      && (first + g.sectorsPerCluster <= g.sectorCount <==> c < g.ClusterLimit())
      && (c < g.ClusterLimit() ==>
            && ValidDisk(g, Overwrite(sectors, first, Cut(buf, g.sectorSize)))
            && VolumeOf(g, Overwrite(sectors, first, Cut(buf, g.sectorSize))) == SetData(VolumeOf(g, sectors), c, buf))
  {
    AtLeastTwo(g);
    ClusterSectors(g, c);
    SectorsFit(g, c);
    BufferSectors(g, buf);
    if c < g.ClusterLimit() { WriteClusterEffect(g, sectors, c, buf); }
    hide VolumeOf, Overwrite, Cut, SetData, Mirrored, Uniform;
  }

  lemma BufferSectors(g: Geometry, buf: seq<byte>)
    requires ValidGeometry(g) && |buf| == g.BytesPerCluster()
    ensures |Cut(buf, g.sectorSize)| == g.sectorsPerCluster
  {
    FlattenCut(buf, g.sectorSize, g.sectorsPerCluster);
  }

  lemma TwoWrites(g: Geometry, sectors: seq<seq<byte>>, c: nat, p: seq<byte>, q: nat, off: nat, value: u32)
    requires ValidDisk(g, sectors) && IsEntry(g, sectors, c, q, off)
    requires q < |sectors| && off + 4 <= |sectors[q]| && p == PutWord(sectors[q], off, value)
    ensures q + g.sectorsPerFAT + 1 <= |sectors| == g.sectorCount && 0 < g.sectorSize && |Cut(p, g.sectorSize)| == 1
    ensures var s2 := Overwrite(Overwrite(sectors, q, Cut(p, g.sectorSize)), q + g.sectorsPerFAT, Cut(p, g.sectorSize));
      && ValidDisk(g, s2)
      && VolumeOf(g, s2) == WithEntry(VolumeOf(g, sectors), c, value)
      && Table(g, s2) == Table(g, sectors)[c := value]
  {
    hide *;
    PatchedFacts(g, sectors, c, p, q, off, value);
    OneCut(p, g.sectorSize);
    OverwriteOne(sectors, q, p);
    OverwriteOne(sectors[q := p], q + g.sectorsPerFAT, p);
  }

  lemma PatchedFacts(g: Geometry, sectors: seq<seq<byte>>, c: nat, p: seq<byte>, q: nat, off: nat, value: u32)
    requires ValidDisk(g, sectors) && IsEntry(g, sectors, c, q, off)
    requires q < |sectors| && off + 4 <= |sectors[q]| && p == PutWord(sectors[q], off, value)
    ensures q + g.sectorsPerFAT + 1 <= |sectors| == g.sectorCount && |p| == g.sectorSize > 0
    ensures g.DataStart() <= |sectors| && ValidGeometry(g)
    ensures var s2 := sectors[q := p][q + g.sectorsPerFAT := p];
      && ValidDisk(g, s2) && |s2| == |sectors|
      && VolumeOf(g, s2) == WithEntry(VolumeOf(g, sectors), c, value)
      && c < |Table(g, sectors)| && Table(g, s2) == Table(g, sectors)[c := value]
  {
    assert Patched(g, sectors, c, q, off, value);
    hide VolumeOf, Table, WithEntry, PutWord;
  }

  lemma OverwriteOne(sectors: seq<seq<byte>>, q: nat, p: seq<byte>)
    requires q < |sectors|
    ensures Overwrite(sectors, q, [p]) == sectors[q := p]
  {
  }

  /** Entry `c` in a buffer that holds the whole table. */
  lemma TableWord(g: Geometry, sectors: seq<seq<byte>>, c: nat)
    requires ValidDisk(g, sectors) && g.DataStart() <= |sectors| && c < |Table(g, sectors)|
    ensures var buf := Flatten(sectors[g.fatStart..g.fatStart + g.sectorsPerFAT]);
            c * 4 + 4 <= |buf| && WordAt(buf, c * 4) == Table(g, sectors)[c]
  {
    var q, i := EntryPlace(g, sectors, c);
    var rows := sectors[g.fatStart..g.fatStart + g.sectorsPerFAT];
    var a := FlattenPiece(rows, g.sectorSize, q);
    FourTimes(q, g.sectorSize, g.sectorSize / 4);
    assert c * 4 == a + 4 * i;
    SliceOfSlice(Flatten(rows), a, g.sectorSize, 4 * i, 4 * i + 4);
  }

  /** The sector around the entry, in that buffer, once the entry is patched. */
  lemma TableRow(g: Geometry, sectors: seq<seq<byte>>, c: nat, q: nat, off: nat, value: u32)
    requires ValidDisk(g, sectors) && g.fatStart <= q < g.fatStart + g.sectorsPerFAT && off + 4 <= g.sectorSize
    requires c * 4 == (q - g.fatStart) * g.sectorSize + off
    ensures var buf := Flatten(sectors[g.fatStart..g.fatStart + g.sectorsPerFAT]);
            var a := (q - g.fatStart) * g.sectorSize;
            && 0 <= a && a + g.sectorSize <= |buf| && c * 4 + 4 <= |buf|
            && PutWord(buf, c * 4, value)[a..a + g.sectorSize] == PutWord(sectors[q], off, value)
  {
    var rows := sectors[g.fatStart..g.fatStart + g.sectorsPerFAT];
    var a := FlattenPiece(rows, g.sectorSize, q - g.fatStart);
    PutInside(Flatten(rows), a, g.sectorSize, off, value);
  }

  lemma PutInside(buf: seq<byte>, a: nat, w: nat, off: nat, value: u32)
    requires a + w <= |buf| && off + 4 <= w
    ensures PutWord(buf, a + off, value)[a..a + w] == PutWord(buf[a..a + w], off, value)
  {
  }
}
