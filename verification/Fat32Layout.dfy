/** Where a FAT32 volume lies on the sectors of a block device: reserved sectors,
    two copies of the allocation table, then the clusters ("FAT Data Structure"
    of the FAT specification, version 1.03). */
module Fat32Layout {
  import opened Bytes
  import opened Fat32Volume

  datatype Geometry = Geometry(
    sectorSize: nat, sectorCount: nat, fatStart: nat, sectorsPerFAT: nat, sectorsPerCluster: nat)
  {
    function DataStart(): nat { fatStart + 2 * sectorsPerFAT }

    function BytesPerCluster(): nat { sectorsPerCluster * sectorSize }

    function MaxFatEntries(): nat { sectorsPerFAT * sectorSize / 4 }

    /** Where the allocator's scan of the table ends. It does not subtract the sectors in front of the data, so
        it comes to entries that stand for no cluster of the device. */
    function LoopLimit(): nat
      requires sectorsPerCluster > 0
    {
      Min(sectorCount / sectorsPerCluster, MaxFatEntries())
    }

    /** The entries scanned that stand for clusters of the device, the two reserved ones included. */
    function ClusterLimit(): nat
      requires sectorsPerCluster > 0 && DataStart() <= sectorCount
    {
      Min(LoopLimit(), 2 + (sectorCount - DataStart()) / sectorsPerCluster)
    }

    function FirstSector(c: nat): nat
      requires c >= 2
    {
      DataStart() + (c - 2) * sectorsPerCluster
    }

    /** The sector transferred to, computed in 32 bits. */
    function SectorOf(c: nat): u32
      requires c >= 2
    {
      FirstSector(c) % 0x1_0000_0000
    }
  }

  ghost predicate LaidOut(g: Geometry)
  {
    && 0 < g.sectorSize && g.sectorSize % 4 == 0
    && 0 < g.sectorsPerCluster && 0 < g.BytesPerCluster() && g.BytesPerCluster() % 32 == 0
    && g.sectorCount < 0x1_0000_0000 && g.sectorsPerFAT * g.sectorSize < 0x1_0000_0000
    && g.DataStart() <= g.sectorCount
    && g.ClusterLimit() < ENDOFCHAIN - 1
  }

  /** The first sectors of all entries scanned fit 32 bits. */
  ghost predicate NoSectorWraps(g: Geometry)
    requires LaidOut(g)
  {
    g.LoopLimit() > 2 ==> g.FirstSector(g.LoopLimit() - 1) < 0x1_0000_0000
  }

  /** What the driver relies on without checking it. */
  ghost predicate ValidGeometry(g: Geometry)
  {
    LaidOut(g) && NoSectorWraps(g)
  }

  /** The two table copies agree. */
  ghost predicate Mirrored(g: Geometry, sectors: seq<seq<byte>>)
    requires g.DataStart() <= |sectors|
  {
    forall i :: g.fatStart <= i < g.fatStart + g.sectorsPerFAT ==> sectors[i + g.sectorsPerFAT] == sectors[i]
  }

  ghost predicate ValidDisk(g: Geometry, sectors: seq<seq<byte>>)
  {
    && ValidGeometry(g)
    && |sectors| == g.sectorCount
    && Uniform(sectors, g.sectorSize)
    && Mirrored(g, sectors)
  }

  // ----- the table as words -----

  function WordAt(s: seq<byte>, off: nat): u32
    requires off + 4 <= |s|
  {
    Pow256Values();
    Dec(s[off..off + 4])
  }

  function PutWord(s: seq<byte>, off: nat, w: u32): (r: seq<byte>)
    requires off + 4 <= |s|
    ensures |r| == |s|
  {
    s[..off] + Enc(w, 4) + s[off + 4..]
  }

  function Words(s: seq<byte>): (ws: seq<u32>)
    ensures |ws| == |s| / 4
  {
    seq(|s| / 4, i requires 0 <= i < |s| / 4 => WordAt(s, 4 * i))
  }

  lemma PutWordEffect(s: seq<byte>, i: nat, w: u32)
    requires 4 * i + 4 <= |s|
    ensures Words(PutWord(s, 4 * i, w)) == Words(s)[i := w]
  {
    var t := PutWord(s, 4 * i, w);
    Pow256Values();
    DecEnc(w, 4);
    assert t[4 * i..4 * i + 4] == Enc(w, 4);
    forall k | 0 <= k < |s| / 4 && k != i
      ensures WordAt(t, 4 * k) == WordAt(s, 4 * k)
    {
      assert t[4 * k..4 * k + 4] == s[4 * k..4 * k + 4];
    }
  }

  function WordRows(ss: seq<seq<byte>>): (ws: seq<seq<u32>>)
    ensures |ws| == |ss|
  {
    seq(|ss|, i requires 0 <= i < |ss| => Words(ss[i]))
  }

  function Table(g: Geometry, sectors: seq<seq<byte>>): seq<u32>
    requires g.DataStart() <= |sectors|
  {
    Flatten(WordRows(sectors[g.fatStart..g.fatStart + g.sectorsPerFAT]))
  }

  // ----- the clusters -----

  lemma ClusterSectors(g: Geometry, c: nat)
    requires LaidOut(g) && 2 <= c
    ensures g.DataStart() <= g.FirstSector(c)
    ensures c < g.ClusterLimit() ==> g.FirstSector(c) + g.sectorsPerCluster <= g.sectorCount
    ensures g.ClusterLimit() <= c < g.LoopLimit() ==> g.FirstSector(c) + g.sectorsPerCluster > g.sectorCount
  {
    var w, room := g.sectorsPerCluster, g.sectorCount - g.DataStart();
    MulLe(0, c - 2, w);
    MulStep(c - 1, w);
    var n := room / w;
    assert room == w * n + room % w;
    if c < 2 + n { MulLe(c - 1, n, w); } else { MulLe(n + 1, c - 1, w); MulStep(n + 1, w); }
  }

  /** On a valid geometry no sector wraps. */
  lemma SectorsFit(g: Geometry, c: nat)
    requires ValidGeometry(g) && 2 <= c < g.LoopLimit()
    ensures g.SectorOf(c) == g.FirstSector(c)
  {
    MulLe(c - 2, g.LoopLimit() - 3, g.sectorsPerCluster);
  }

  /** The transfer would reach past the end of the device. */
  predicate Refused(g: Geometry, c: nat)
    requires c >= 2
  {
    g.SectorOf(c) + g.sectorsPerCluster > g.sectorCount
  }

  /** The device refuses a number scanned that is no cluster if and only if its sector does not wrap; if it
      does, the transfer goes to sectors in front of the data. */
  lemma RefusedExactly(g: Geometry, c: nat)
    requires LaidOut(g) && c >= 2 && g.ClusterLimit() <= c < g.LoopLimit()
    ensures Refused(g, c) <==> g.FirstSector(c) < 0x1_0000_0000
    ensures g.FirstSector(c) >= 0x1_0000_0000 ==> g.SectorOf(c) + g.sectorsPerCluster <= g.DataStart()
  {
    ClusterSectors(g, c);
    var w := g.sectorsPerCluster;
    MulLe(c, g.sectorCount / w - 1, w);
    assert w * (g.sectorCount / w) <= g.sectorCount;
    assert (c - 2) * w == c * w - 2 * w;
    assert (g.sectorCount / w - 1) * w == w * (g.sectorCount / w) - w;
  }

  /** Every number scanned that is no cluster is refused if and only if no sector wraps. */
  lemma AllRefusedExactly(g: Geometry)
    requires LaidOut(g)
    ensures NoSectorWraps(g) <==> forall c: nat :: g.ClusterLimit() <= c < g.LoopLimit() && c >= 2 ==> Refused(g, c)
  {
    if NoSectorWraps(g) {
      forall c: nat | g.ClusterLimit() <= c < g.LoopLimit() && c >= 2
        ensures Refused(g, c)
      {
        RefusedExactly(g, c);
        SectorsFit(g, c);
      }
    } else {
      var last := g.LoopLimit() - 1;
      ClusterSectors(g, last);
      assert !Refused(g, last) by { RefusedExactly(g, last); }
    }
  }

  /** A geometry of almost 2^32 sectors on which the second number behind the clusters leads into the first table. */
  lemma SectorWraps()
    ensures var g := Geometry(512, 0xFFFF_FFFF, 32, 524289, 64);
      && LaidOut(g) && !NoSectorWraps(g) && g.ClusterLimit() == 67092481 && g.LoopLimit() == 67108863
      && !Refused(g, 67092482) && g.fatStart <= g.SectorOf(67092482) == 34 < g.fatStart + g.sectorsPerFAT
  {
    var g := Geometry(512, 0xFFFF_FFFF, 32, 524289, 64);
    assert (g.sectorCount - g.DataStart()) / 64 == 67092479;
  }

  /** Cluster 2 starts behind the second table, and each next one `sectorsPerCluster` sectors further on. */
  lemma ClustersFollow(g: Geometry, c: nat)
    requires c >= 2
    ensures g.FirstSector(2) == g.fatStart + 2 * g.sectorsPerFAT
    ensures g.FirstSector(c + 1) == g.FirstSector(c) + g.sectorsPerCluster
  {
    MulStep(c - 1, g.sectorsPerCluster);
  }

  /** The clusters are the numbers that the table has an entry for, whose sectors lie on the device and that the
      allocator's scan comes to. */
  lemma ClustersExactly(g: Geometry, c: nat)
    requires LaidOut(g) && c >= 2
    ensures c < g.ClusterLimit() <==>
      && 4 * c + 4 <= g.sectorsPerFAT * g.sectorSize && c < g.sectorCount / g.sectorsPerCluster
      && g.FirstSector(c) + g.sectorsPerCluster <= g.sectorCount
    ensures 2 <= c < g.LoopLimit() <==>
      4 * c + 4 <= g.sectorsPerFAT * g.sectorSize && c < g.sectorCount / g.sectorsPerCluster
  {
    ClusterSectors(g, c);
    var bytes := g.sectorsPerFAT * g.sectorSize;
    assert bytes % 4 == 0 by { FourTimes(g.sectorsPerFAT, g.sectorSize, g.sectorSize / 4); }
  }

  function ClusterAt(g: Geometry, sectors: seq<seq<byte>>, c: nat): seq<byte>
    requires ValidGeometry(g) && |sectors| == g.sectorCount && 2 <= c < g.ClusterLimit()
  {
    ClusterSectors(g, c);
    Flatten(sectors[g.FirstSector(c)..g.FirstSector(c) + g.sectorsPerCluster])
  }

  /** The clusters of the device and their entries. The rest of the table belongs to no cluster. */
  function VolumeOf(g: Geometry, sectors: seq<seq<byte>>): Volume
    requires ValidGeometry(g) && |sectors| == g.sectorCount
  {
    var table := Table(g, sectors);
    Volume(g.BytesPerCluster(), table[..Min(g.ClusterLimit(), |table|)],
           seq(g.ClusterLimit(), c requires 0 <= c < g.ClusterLimit() =>
             if c < 2 then [] else ClusterAt(g, sectors, c)))
  }

  lemma VolumeIsWellFormed(g: Geometry, sectors: seq<seq<byte>>)
    requires ValidDisk(g, sectors)
    ensures WellFormed(VolumeOf(g, sectors))
    ensures |VolumeOf(g, sectors).fat| == |VolumeOf(g, sectors).data| == g.ClusterLimit() <= |Table(g, sectors)|
    ensures VolumeOf(g, sectors).fat == Table(g, sectors)[..g.ClusterLimit()]
  {
    TableSize(g, sectors);
    forall c | 2 <= c < g.ClusterLimit()
      ensures |ClusterAt(g, sectors, c)| == g.BytesPerCluster()
    {
      ClusterSectors(g, c);
      FlattenLength(sectors[g.FirstSector(c)..g.FirstSector(c) + g.sectorsPerCluster], g.sectorSize);
    }
  }

  lemma FourTimes(n: nat, size: nat, w: nat)
    requires size == 4 * w
    ensures n * size == 4 * (n * w) && n * size / 4 == n * w
  {
  }

  lemma SplitEntry(c: nat, n: nat, size: nat, w: nat) returns (q: nat, i: nat)
    requires size == 4 * w && w > 0 && c < n * w
    ensures c == q * w + i && q < n && i < w && c * 4 == q * size + 4 * i
    ensures c * 4 / size == q && c * 4 % size == 4 * i
  {
    q, i := c / w, c % w;
    assert c == w * q + i;
    FourTimes(q, size, w);
    DivMod(c * 4, size, q, 4 * i);
    if q >= n { MulLe(n, q, w); }
  }

  lemma TableSize(g: Geometry, sectors: seq<seq<byte>>)
    requires ValidDisk(g, sectors)
    ensures |Table(g, sectors)| == g.MaxFatEntries() == g.sectorsPerFAT * (g.sectorSize / 4)
  {
    FlattenLength(WordRows(sectors[g.fatStart..g.fatStart + g.sectorsPerFAT]), g.sectorSize / 4);
    FourTimes(g.sectorsPerFAT, g.sectorSize, g.sectorSize / 4);
  }

  /** The sector and byte offset of entry `c`, as the driver computes them. */
  lemma EntryPlace(g: Geometry, sectors: seq<seq<byte>>, c: nat) returns (q: nat, i: nat)
    requires ValidDisk(g, sectors) && c < |Table(g, sectors)|
    ensures q == c * 4 / g.sectorSize < g.sectorsPerFAT
    ensures 4 * i == c * 4 % g.sectorSize && i < g.sectorSize / 4
    ensures c == q * (g.sectorSize / 4) + i && c * 4 == q * g.sectorSize + 4 * i
    ensures Table(g, sectors)[c] == WordAt(sectors[g.fatStart + q], 4 * i)
  {
    var w := g.sectorSize / 4;
    TableSize(g, sectors);
    q, i := SplitEntry(c, g.sectorsPerFAT, g.sectorSize, w);
    FlattenIndex(WordRows(sectors[g.fatStart..g.fatStart + g.sectorsPerFAT]), w, q, i);
  }

  /** Entry `c` is the little-endian word at byte `4 * c` of the table, in the sectors from `fatStart` on. */
  lemma EntryBytes(g: Geometry, sectors: seq<seq<byte>>, c: nat) returns (q: nat, o: nat, v: Volume)
    requires ValidDisk(g, sectors) && c < g.ClusterLimit()
    ensures v == VolumeOf(g, sectors) && c < |v.fat| && g.sectorSize > 0
    ensures q == g.fatStart + 4 * c / g.sectorSize && o == 4 * c % g.sectorSize
    ensures q < |sectors| && o + 4 <= |sectors[q]| && sectors[q][o..o + 4] == Enc(v.fat[c], 4)
  {
    VolumeIsWellFormed(g, sectors);
    v := VolumeOf(g, sectors);
    var i;
    q, i := EntryPlace(g, sectors, c);
    q, o := g.fatStart + q, 4 * i;
    assert |sectors[q]| == g.sectorSize;
    EncDec(sectors[q][o..o + 4]);
    hide Enc, Dec, Table, VolumeOf;
  }

  /** Byte `k` of cluster `c` is byte `k` of the sectors from its first one on. */
  lemma ClusterBytes(g: Geometry, sectors: seq<seq<byte>>, c: nat, k: nat) returns (q: nat, r: nat, v: Volume)
    requires ValidDisk(g, sectors) && 2 <= c < g.ClusterLimit() && k < g.sectorsPerCluster * g.sectorSize
    ensures v == VolumeOf(g, sectors) && |v.data| == g.ClusterLimit() && g.sectorSize > 0
    ensures |v.data[c]| == g.sectorsPerCluster * g.sectorSize
    ensures q == g.FirstSector(c) + k / g.sectorSize && r == k % g.sectorSize
    ensures q < |sectors| && r < |sectors[q]| && v.data[c][k] == sectors[q][r]
  {
    VolumeIsWellFormed(g, sectors);
    ClusterSectors(g, c);
    v, r := VolumeOf(g, sectors), k % g.sectorSize;
    var rows := sectors[g.FirstSector(c)..g.FirstSector(c) + g.sectorsPerCluster];
    var n := RowOfByte(k, g.sectorSize, g.sectorsPerCluster);
    q := g.FirstSector(c) + n;
    DataAt(g, sectors, c);
    assert Uniform(rows, g.sectorSize) && rows[n] == sectors[q] && |v.data[c]| == g.BytesPerCluster();
    hide *;
    FlattenIndex(rows, g.sectorSize, n, r);
  }

  lemma DataAt(g: Geometry, sectors: seq<seq<byte>>, c: nat)
    requires ValidGeometry(g) && |sectors| == g.sectorCount && 2 <= c < g.ClusterLimit()
    ensures VolumeOf(g, sectors).data[c] == ClusterAt(g, sectors, c)
  {
    hide ClusterAt, Table;
  }

  lemma RowOfByte(k: nat, w: nat, n: nat) returns (q: nat)
    requires w > 0 && k < n * w
    ensures q == k / w < n && k == q * w + k % w
  {
    q := k / w;
    if q >= n { MulLe(n, q, w); }
  }

  /** The driver's two writes of one patched table sector. */
  function PatchFat(g: Geometry, sectors: seq<seq<byte>>, q: nat, off: nat, value: u32): (r: seq<seq<byte>>)
    requires g.DataStart() <= |sectors| && g.fatStart <= q < g.fatStart + g.sectorsPerFAT
    requires off + 4 <= |sectors[q]|
    ensures |r| == |sectors|
  {
    var p := PutWord(sectors[q], off, value);
    sectors[q := p][q + g.sectorsPerFAT := p]
  }

  /** The volume with entry `c` set, if it stands for a cluster. */
  function WithEntry(v: Volume, c: nat, value: u32): Volume {
    if c < |v.fat| then v.(fat := v.fat[c := value]) else v
  }

  /** Patching one entry in both copies keeps them equal, changes that entry alone
      and leaves every cluster as it was. */
  lemma PatchFatEffect(g: Geometry, sectors: seq<seq<byte>>, c: nat, q: nat, i: nat, value: u32)
    requires ValidDisk(g, sectors) && q < g.sectorsPerFAT && i < g.sectorSize / 4
    requires c == q * (g.sectorSize / 4) + i && c < |Table(g, sectors)|
    ensures var sectors' := PatchFat(g, sectors, g.fatStart + q, 4 * i, value);
            && ValidDisk(g, sectors') && Table(g, sectors') == Table(g, sectors)[c := value]
            && VolumeOf(g, sectors') == WithEntry(VolumeOf(g, sectors), c, value)
  {
    PatchTable(g, sectors, c, q, i, value);
    ClustersUntouched(g, sectors, PatchFat(g, sectors, g.fatStart + q, 4 * i, value));
    hide Table, ClusterAt;
  }

  lemma PatchTable(g: Geometry, sectors: seq<seq<byte>>, c: nat, q: nat, i: nat, value: u32)
    requires ValidDisk(g, sectors) && q < g.sectorsPerFAT && i < g.sectorSize / 4
    requires c == q * (g.sectorSize / 4) + i && c < |Table(g, sectors)|
    ensures Table(g, PatchFat(g, sectors, g.fatStart + q, 4 * i, value)) == Table(g, sectors)[c := value]
  {
    var w := g.sectorSize / 4;
    var sectors' := PatchFat(g, sectors, g.fatStart + q, 4 * i, value);
    var a, b := g.fatStart, g.fatStart + g.sectorsPerFAT;
    var rows := WordRows(sectors[a..b]);
    PutWordEffect(sectors[a + q], i, value);
    assert WordRows(sectors'[a..b]) == rows[q := rows[q][i := value]];
    FlattenSet(rows, w, q, i, value);
  }

  /** Writes in front of the data area change no cluster. */
  lemma ClustersUntouched(g: Geometry, sectors: seq<seq<byte>>, sectors': seq<seq<byte>>)
    requires ValidGeometry(g) && |sectors| == |sectors'| == g.sectorCount
    requires sectors[g.DataStart()..] == sectors'[g.DataStart()..]
    ensures VolumeOf(g, sectors').data == VolumeOf(g, sectors).data
  {
    forall c | 2 <= c < g.ClusterLimit()
      ensures ClusterAt(g, sectors', c) == ClusterAt(g, sectors, c)
    {
      ClusterSectors(g, c);
      SameTail(sectors, sectors', g.DataStart(), g.FirstSector(c), g.sectorsPerCluster);
    }
  }

  lemma SameTail(s: seq<seq<byte>>, t: seq<seq<byte>>, d: nat, a: nat, n: nat)
    requires d <= a && a + n <= |s| == |t| && s[d..] == t[d..]
    ensures s[a..a + n] == t[a..a + n]
  {
    assert s[a..a + n] == s[d..][a - d..a - d + n];
    assert t[a..a + n] == t[d..][a - d..a - d + n];
  }

  function Overwrite(sectors: seq<seq<byte>>, first: nat, rows: seq<seq<byte>>): (r: seq<seq<byte>>)
    requires first + |rows| <= |sectors|
    ensures |r| == |sectors|
  {
    sectors[..first] + rows + sectors[first + |rows|..]
  }

  /** Writing a cluster's sectors touches neither table copy nor any other cluster. */
  lemma WriteClusterEffect(g: Geometry, sectors: seq<seq<byte>>, c: nat, buf: seq<byte>)
    requires ValidDisk(g, sectors) && 2 <= c < g.ClusterLimit() && |buf| == g.BytesPerCluster()
    ensures |Cut(buf, g.sectorSize)| == g.sectorsPerCluster && g.FirstSector(c) + g.sectorsPerCluster <= g.sectorCount
    ensures var sectors' := Overwrite(sectors, g.FirstSector(c), Cut(buf, g.sectorSize));
            && ValidDisk(g, sectors')
            && VolumeOf(g, sectors') == SetData(VolumeOf(g, sectors), c, buf)
  {
    ClusterSectors(g, c);
    FlattenCut(buf, g.sectorSize, g.sectorsPerCluster);
    var rows := Cut(buf, g.sectorSize);
    var sectors' := Overwrite(sectors, g.FirstSector(c), rows);
    assert sectors'[g.fatStart..g.fatStart + g.sectorsPerFAT] == sectors[g.fatStart..g.fatStart + g.sectorsPerFAT];
    forall d | 2 <= d < g.ClusterLimit()
      ensures ClusterAt(g, sectors', d) == if d == c then buf else ClusterAt(g, sectors, d)
    {
      OverwrittenCluster(g, sectors, c, buf, d);
    }
  }

  lemma OverwrittenCluster(g: Geometry, sectors: seq<seq<byte>>, c: nat, buf: seq<byte>, d: nat)
    requires ValidGeometry(g) && |sectors| == g.sectorCount && |buf| == g.BytesPerCluster()
    requires 2 <= c < g.ClusterLimit() && 2 <= d < g.ClusterLimit()
    requires |Cut(buf, g.sectorSize)| == g.sectorsPerCluster && Flatten(Cut(buf, g.sectorSize)) == buf
    ensures g.FirstSector(c) + g.sectorsPerCluster <= g.sectorCount
    ensures ClusterAt(g, Overwrite(sectors, g.FirstSector(c), Cut(buf, g.sectorSize)), d)
         == if d == c then buf else ClusterAt(g, sectors, d)
  {
    ClusterSectors(g, c);
    ClusterSectors(g, d);
    var rows := Cut(buf, g.sectorSize);
    if d != c { ClustersApart(g, c, d); }
    OverwrittenRange(sectors, g.FirstSector(c), rows, g.FirstSector(d));
  }

  lemma OverwrittenRange(sectors: seq<seq<byte>>, a: nat, rows: seq<seq<byte>>, b: nat)
    requires a + |rows| <= |sectors| && b + |rows| <= |sectors|
    requires b == a || a + |rows| <= b || b + |rows| <= a
    ensures Overwrite(sectors, a, rows)[b..b + |rows|] == if a == b then rows else sectors[b..b + |rows|]
  {
  }

  lemma ClustersApart(g: Geometry, c: nat, d: nat)
    requires 2 <= c && 2 <= d && c != d
    ensures g.FirstSector(c) + g.sectorsPerCluster <= g.FirstSector(d)
         || g.FirstSector(d) + g.sectorsPerCluster <= g.FirstSector(c)
  {
    if c < d { MulLe(c - 1, d - 2, g.sectorsPerCluster); } else { MulLe(d - 1, c - 2, g.sectorsPerCluster); }
  }
}
